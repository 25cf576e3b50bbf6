/**
 * The integer range coder of "Arithmetic Coding Revisited" (Moffat, Neal
 * and Witten) as the coder compiles it: B_BITS = 32 code bits, F_BITS = 27
 * frequency bits, the shift/add arithmetic (no MULT_DIV) and FRUGAL_BITS.
 *
 * The encoder keeps the interval [L, L + R) and the count of deferred
 * ("outstanding") bits; the bits it produces are packed into bytes
 * written to an output device, modelled as the sequence of bytes written.
 * The decoder keeps D = V - L, its own copy of R, the ratio R / total and
 * the bit window V, and reads bits from an input device, modelled as a
 * byte sequence and a read position.
 *
 * `Encoder` and `Decoder` are the two halves of the coder's state; the
 * functions ending in `Of` are its operations, and the class `ArithCodec`
 * runs them over its fields.
 */
module ArithCoding {

  /** B_BITS */
  const BBits: nat := 32

  /** F_BITS */
  const FBits: nat := 27

  /** Half: 1 << (B_BITS - 1). */
  const Half: int := 0x8000_0000

  /** Quarter: 1 << (B_BITS - 2). */
  const Quarter: int := 0x4000_0000

  /** MAX_BITS_OUTSTANDING: 1 << 31. */
  const MaxBitsOutstanding: int := 0x8000_0000

  /** BYTE_SIZE */
  const ByteSize: int := 8

  /** The partial normalisation the shift/add arithmetic needs: 2^(F_BITS - 1) < total <= 2^F_BITS. */
  predicate TotalInRange(total: int)
  {
    0x400_0000 < total <= 0x800_0000
  }

  function Pow2(n: nat): (p: int)
    ensures p >= 1
  {
    if n == 0 then 1 else 2 * Pow2(n - 1)
  }

  /** The powers of two the coder's shifts use. */
  lemma Pow2Facts()
    ensures Pow2(4) == 16 && Pow2(8) == 256
    ensures Pow2(26) == 0x400_0000 && Pow2(27) == 0x800_0000
    ensures Pow2(31) == Half && Pow2(32) == 2 * Half
  {
    assert Pow2(8) == 256;
    Pow2Add(8, 8);
    Pow2Add(16, 8);
    assert Pow2(2) == 4 && Pow2(3) == 8;
    Pow2Add(24, 2);
    Pow2Add(24, 3);
    Pow2Add(24, 7);
    Pow2Add(24, 8);
  }

  function Min(a: int, b: int): int
  {
    if a <= b then a else b
  }

  // ---------------------------------------------------------------------
  // Division by shifts and subtractions
  // ---------------------------------------------------------------------

  /** `if (A >= M) { A -= M; q++; }` */
  function DivStep(a: int, m: int, q: int): (int, int)
  {
    if a >= m then (a - m, q + 1) else (a, q)
  }

  /** `n` more rounds of `A <<= 1; q <<= 1; if (A >= M) { A -= M; q++; }`. */
  function ShiftSteps(a: int, q: int, m: int, n: nat): (int, int)
    decreases n
  {
    if n == 0 then (a, q)
    else ShiftSteps(DivStep(2 * a, m, 2 * q).0, DivStep(2 * a, m, 2 * q).1, m, n - 1)
  }

  /** The quotient the unrolled loop computes: one step, then `n` rounds. */
  function ShiftQuotient(a: int, m: int, n: nat): int
  {
    ShiftSteps(DivStep(a, m, 0).0, DivStep(a, m, 0).1, m, n).1
  }

  /** Division with remainder has one answer. */
  lemma DivModUnique(x: int, m: int, q: int, r: int)
    requires m > 0 && x == m * q + r && 0 <= r < m
    ensures x / m == q && x % m == r
  {
    var q0 := x / m;
    var r0 := x % m;
    assert m * q0 + r0 == x;
    if q0 > q {
      Mul1(m, q0 - q);
    } else if q0 < q {
      Mul1(m, q - q0);
    }
  }

  lemma Mul1(m: int, d: int)
    requires m > 0 && d >= 1
    ensures m * d >= m
  {
  }

  /** Doubling the dividend doubles the quotient and adds the bit the remainder carries. */
  lemma DivDouble(x: int, m: int)
    requires m > 0
    ensures (2 * x) / m == 2 * (x / m) + (if 2 * (x % m) >= m then 1 else 0)
    ensures (2 * x) % m == 2 * (x % m) - (if 2 * (x % m) >= m then m else 0)
  {
    var b := if 2 * (x % m) >= m then 1 else 0;
    assert 2 * x == m * (2 * (x / m) + b) + (2 * (x % m) - b * m);
    DivModUnique(2 * x, m, 2 * (x / m) + b, 2 * (x % m) - b * m);
  }

  /** While the remainder stays below M, the rounds compute the exact quotient of x * 2^n. */
  lemma {:induction false} ShiftStepsExact(x: int, a: int, q: int, m: int, n: nat)
    requires m > 0 && x >= 0 && q == x / m && a == x % m
    ensures ShiftSteps(a, q, m, n).1 == (x * Pow2(n)) / m
    decreases n
  {
    if n > 0 {
      DivDouble(x, m);
      ShiftStepsExact(2 * x, DivStep(2 * a, m, 2 * q).0, DivStep(2 * a, m, 2 * q).1, m, n - 1);
      assert (2 * x) * Pow2(n - 1) == x * Pow2(n);
    }
  }

  /** Once the remainder reaches M it stays there, and every round adds a one bit. */
  lemma {:induction false} ShiftStepsSaturate(a: int, q: int, m: int, n: nat)
    requires m > 0 && a >= m
    ensures ShiftSteps(a, q, m, n).1 == (q + 1) * Pow2(n) - 1
    decreases n
  {
    if n > 0 {
      ShiftStepsSaturate(2 * a - m, 2 * q + 1, m, n - 1);
      assert (2 * q + 2) * Pow2(n - 1) == (q + 1) * Pow2(n);
    }
  }

  lemma DivBelow(x: int, m: int, y: int)
    requires m > 0 && 0 <= x < m * y
    ensures x / m < y
  {
  }

  lemma DivAbove(x: int, m: int, y: int)
    requires m > 0 && x >= m * y
    ensures x / m >= y
  {
    var q := x / m;
    if q < y {
      AtLeastTimes(y - 1, q, m);
    }
  }

  /**
   * The unrolled shift/add division answers the quotient of a * 2^n by M,
   * capped at the all-ones value of its n + 1 bits; a negative dividend
   * answers 0.
   */
  lemma ShiftQuotientIs(a: int, m: int, n: nat)
    requires m > 0
    ensures ShiftQuotient(a, m, n) == if a < 0 then 0 else Min((a * Pow2(n)) / m, 2 * Pow2(n) - 1)
  {
    if a < 0 {
      ShiftStepsNegative(a, 0, m, n);
    } else if a < 2 * m {
      ShiftQuotientSmall(a, m, n);
    } else {
      ShiftQuotientLarge(a, m, n);
    }
  }

  lemma ShiftQuotientSmall(a: int, m: int, n: nat)
    requires m > 0 && 0 <= a < 2 * m
    ensures ShiftQuotient(a, m, n) == (a * Pow2(n)) / m <= 2 * Pow2(n) - 1
  {
    var p := Pow2(n);
    var s := DivStep(a, m, 0);
    if a < m {
      DivModUnique(a, m, 0, a);
    } else {
      DivModUnique(a, m, 1, a - m);
    }
    assert s.1 == a / m && s.0 == a % m;
    ShiftStepsExact(a, s.0, s.1, m, n);
    LessTimes(a, 2 * m, p);
    Regroup(m, p);
    DivBelow(a * p, m, 2 * p);
  }

  lemma ShiftQuotientLarge(a: int, m: int, n: nat)
    requires m > 0 && a >= 2 * m
    ensures ShiftQuotient(a, m, n) == 2 * Pow2(n) - 1 <= (a * Pow2(n)) / m
  {
    var p := Pow2(n);
    ShiftStepsSaturate(a - m, 1, m, n);
    AtLeastTimes(a, 2 * m, p);
    Regroup(m, p);
    DivAbove(a * p, m, 2 * p);
  }

  lemma Regroup(m: int, p: int)
    ensures (2 * m) * p == m * (2 * p)
  {
  }

  lemma LessTimes(a: int, b: int, p: int)
    requires 0 <= a < b && p >= 1
    ensures a * p < b * p
  {
  }

  lemma AtLeastTimes(a: int, b: int, p: int)
    requires a >= b && p >= 1
    ensures a * p >= b * p
  {
  }

  lemma {:induction false} ShiftStepsNegative(a: int, q: int, m: int, n: nat)
    requires m > 0 && a < 0 && q == 0
    ensures ShiftSteps(a, q, m, n).1 == 0
    decreases n
  {
    if n > 0 {
      ShiftStepsNegative(2 * a, 0, m, n - 1);
    }
  }

  /** A common factor cancels. */
  lemma DivScale(x: int, m: int, k: int)
    requires m > 0 && k > 0
    ensures (x * k) / (m * k) == x / m
  {
    assert x * k == (m * k) * (x / m) + (x % m) * k;
    assert (x % m) * k < m * k;
    DivModUnique(x * k, m * k, x / m, (x % m) * k);
  }

  // ---------------------------------------------------------------------
  // Bits and bytes
  // ---------------------------------------------------------------------

  /** The ways the coder stops with FATAL. */
  datatype CoderError = BitsOutstandingLimit | ReadPastEndOfFile | CorruptInput

  datatype Outcome<T> = Done(value: T) | Fatal(error: CoderError)

  function Bit(b: bool): int
  {
    if b then 1 else 0
  }

  /** The low `k` bits of `x`, most significant first. */
  function BitsOf(x: int, k: nat): (s: seq<bool>)
    ensures |s| == k
    decreases k
  {
    if k == 0 then [] else BitsOf(x / 2, k - 1) + [x % 2 == 1]
  }

  /** The bits of a sequence of bytes, each most significant bit first. */
  function BytesBits(s: seq<int>): (bits: seq<bool>)
    ensures |bits| == 8 * |s|
  {
    if s == [] then [] else BytesBits(s[..|s| - 1]) + BitsOf(s[|s| - 1], 8)
  }

  function Repeat(b: bool, n: nat): (s: seq<bool>)
    ensures |s| == n && forall i :: 0 <= i < n ==> s[i] == b
  {
    seq(n, _ => b)
  }

  lemma ModDouble(x: int, p: int)
    requires p >= 1
    ensures x % (2 * p) == 2 * ((x / 2) % p) + x % 2
  {
    var h := x / 2;
    assert x == (2 * p) * (h / p) + (2 * (h % p) + x % 2);
    DivModUnique(x, 2 * p, h / p, 2 * (h % p) + x % 2);
  }

  /** The low `k` bits depend only on the residue modulo 2^k. */
  lemma {:induction false} BitsOfMod(x: int, y: int, k: nat)
    requires x % Pow2(k) == y % Pow2(k)
    ensures BitsOf(x, k) == BitsOf(y, k)
    decreases k
  {
    if k > 0 {
      ModDouble(x, Pow2(k - 1));
      ModDouble(y, Pow2(k - 1));
      BitsOfMod(x / 2, y / 2, k - 1);
    }
  }

  /** Shifting left by `t` appends `t` zero bits. */
  lemma {:induction false} BitsOfShifted(x: int, k: nat, t: nat)
    ensures BitsOf(x * Pow2(t), k + t) == BitsOf(x, k) + Repeat(false, t)
    decreases t
  {
    if t > 0 {
      var y := x * Pow2(t);
      assert y == 2 * (x * Pow2(t - 1));
      BitsOfShifted(x, k, t - 1);
      assert BitsOf(y, k + t) == BitsOf(x * Pow2(t - 1), k + t - 1) + [false];
    }
  }

  // ---------------------------------------------------------------------
  // The encoder
  // ---------------------------------------------------------------------

  /**
   * The encoder's state: the interval [L, L + R), the follow bits not yet
   * written, the FRUGAL_BITS flag, the byte being filled and the number of
   * bits it still takes, the byte count, and the bytes the output device
   * received.
   */
  datatype Encoder = Encoder(L: int, R: int, outstanding: int, ignoreFirstBit: bool,
                             buffer: int, bitsToGo: int, numberOfBytes: int, bytes: seq<int>)

  /** Bit output has been started and the byte count matches the bytes written. */
  predicate SinkValid(e: Encoder)
  {
    1 <= e.bitsToGo <= 8 && e.numberOfBytes == |e.bytes|
  }

  /** Everything the encoder has emitted: the bytes written and the bits waiting in the buffer. */
  function Emitted(e: Encoder): seq<bool>
    requires SinkValid(e)
  {
    BytesBits(e.bytes) + BitsOf(e.buffer, 8 - e.bitsToGo)
  }

  /** startOutputtingBits */
  function StartOutputtingBitsOf(e: Encoder): (r: Encoder)
    ensures e.numberOfBytes == |e.bytes| ==> SinkValid(r) && Emitted(r) == BytesBits(e.bytes)
  {
    e.(buffer := 0, bitsToGo := ByteSize)
  }

  /** The output device keeps the low byte of what it is given. */
  function PutCharOf(e: Encoder, c: int): Encoder
  {
    e.(bytes := e.bytes + [c % 256], numberOfBytes := e.numberOfBytes + 1)
  }

  /** OUTPUT_BIT: shift the bit into the buffer, and write the buffer once it holds a byte. */
  function OutputBitOf(e: Encoder, b: bool): Encoder
  {
    var buffer := 2 * e.buffer + Bit(b);
    if e.bitsToGo - 1 == 0 then PutCharOf(e, buffer).(bitsToGo := ByteSize, buffer := 0)
    else e.(buffer := buffer, bitsToGo := e.bitsToGo - 1)
  }

  /** Emitting a bit appends exactly that bit. */
  lemma OutputBitAppends(e: Encoder, b: bool)
    requires SinkValid(e)
    ensures SinkValid(OutputBitOf(e, b))
    ensures Emitted(OutputBitOf(e, b)) == Emitted(e) + [b]
  {
    assert SinkValid(OutputBitOf(e, b));
    if e.bitsToGo == 1 {
      OutputBitFlushes(e, b);
    } else {
      OutputBitShifts(e, b);
    }
  }

  lemma OutputBitShifts(e: Encoder, b: bool)
    requires SinkValid(e) && e.bitsToGo > 1
    ensures Emitted(OutputBitOf(e, b)) == Emitted(e) + [b]
  {
    var k := 8 - e.bitsToGo;
    var o := e.(buffer := 2 * e.buffer + Bit(b), bitsToGo := e.bitsToGo - 1);
    assert OutputBitOf(e, b) == o;
    assert Emitted(o) == BytesBits(e.bytes) + BitsOf(2 * e.buffer + Bit(b), k + 1);
    ShiftInBit(e.buffer, b, k);
    Associate(BytesBits(e.bytes), BitsOf(e.buffer, k), [b]);
  }

  lemma Associate<T>(a: seq<T>, b: seq<T>, c: seq<T>)
    ensures a + (b + c) == (a + b) + c
  {
  }

  lemma OutputBitFlushes(e: Encoder, b: bool)
    requires SinkValid(e) && e.bitsToGo == 1
    ensures BytesBits(OutputBitOf(e, b).bytes) == Emitted(e) + [b]
  {
    var buffer := 2 * e.buffer + Bit(b);
    var o := OutputBitOf(e, b);
    assert o.bytes == e.bytes + [buffer % 256];
    ShiftInBit(e.buffer, b, 7);
    AppendByte(e.bytes, buffer);
    assert Emitted(e) == BytesBits(e.bytes) + BitsOf(e.buffer, 7);
    Associate(BytesBits(e.bytes), BitsOf(e.buffer, 7), [b]);
  }

  /** Writing a byte appends its eight bits; the device keeps only those. */
  lemma AppendByte(bytes: seq<int>, c: int)
    ensures BytesBits(bytes + [c % 256]) == BytesBits(bytes) + BitsOf(c, 8)
  {
    var s := bytes + [c % 256];
    assert s[..|s| - 1] == bytes;
    assert Pow2(8) == 256;
    BitsOfMod(c % 256, c, 8);
  }

  lemma ShiftInBit(x: int, b: bool, k: nat)
    ensures BitsOf(2 * x + Bit(b), k + 1) == BitsOf(x, k) + [b]
  {
    assert (2 * x + Bit(b)) / 2 == x;
  }

  /** The follow loop of ORIG_BIT_PLUS_FOLLOW: one `b` per outstanding bit, counting them down. */
  function Follow(e: Encoder, b: bool): Encoder
    decreases e.outstanding
  {
    if e.outstanding <= 0 then e
    else Follow(OutputBitOf(e, b).(outstanding := e.outstanding - 1), b)
  }

  lemma {:induction false} FollowEmits(e: Encoder, b: bool)
    requires SinkValid(e) && e.outstanding >= 0
    ensures SinkValid(Follow(e, b))
    ensures Emitted(Follow(e, b)) == Emitted(e) + Repeat(b, e.outstanding)
    ensures Follow(e, b).L == e.L && Follow(e, b).R == e.R
    ensures Follow(e, b).ignoreFirstBit == e.ignoreFirstBit && Follow(e, b).outstanding == 0
    decreases e.outstanding
  {
    if e.outstanding > 0 {
      var o := OutputBitOf(e, b).(outstanding := e.outstanding - 1);
      OutputBitAppends(e, b);
      assert Emitted(o) == Emitted(e) + [b];
      FollowEmits(o, b);
      assert Repeat(b, e.outstanding) == [b] + Repeat(b, e.outstanding - 1);
      Associate(Emitted(e), [b], Repeat(b, e.outstanding - 1));
    }
  }

  /** BIT_PLUS_FOLLOW under FRUGAL_BITS: the first call only clears the flag. */
  function BitPlusFollowOf(e: Encoder, b: bool): Encoder
  {
    if e.ignoreFirstBit then e.(ignoreFirstBit := false)
    else Follow(OutputBitOf(e, b), !b)
  }

  /**
   * BIT_PLUS_FOLLOW emits the bit and then the opposite bit once per
   * outstanding bit, leaving none outstanding; while the flag is set it
   * emits nothing and clears the flag.
   */
  lemma BitPlusFollowEmits(e: Encoder, b: bool)
    requires SinkValid(e) && e.outstanding >= 0
    ensures SinkValid(BitPlusFollowOf(e, b))
    ensures !BitPlusFollowOf(e, b).ignoreFirstBit
    ensures BitPlusFollowOf(e, b).L == e.L && BitPlusFollowOf(e, b).R == e.R
    ensures e.ignoreFirstBit ==>
      Emitted(BitPlusFollowOf(e, b)) == Emitted(e) && BitPlusFollowOf(e, b).outstanding == e.outstanding
    ensures !e.ignoreFirstBit ==>
      Emitted(BitPlusFollowOf(e, b)) == Emitted(e) + [b] + Repeat(!b, e.outstanding) &&
      BitPlusFollowOf(e, b).outstanding == 0
  {
    if !e.ignoreFirstBit {
      OutputBitAppends(e, b);
      FollowEmits(OutputBitOf(e, b), !b);
    }
  }

  /** The encoder's invariant between renormalisation steps. */
  predicate CoderShape(e: Encoder)
  {
    0 <= e.L && 1 <= e.R <= Half && e.L + e.R <= 2 * Half && 0 <= e.outstanding &&
    (e.ignoreFirstBit ==> e.L + e.R <= Half && e.outstanding == 0) &&
    SinkValid(e)
  }

  /** The encoder's invariant between symbols: renormalised, and the follow count below the limit. */
  predicate EncoderValid(e: Encoder)
  {
    CoderShape(e) && Quarter < e.R && e.outstanding <= MaxBitsOutstanding
  }

  /** One round of ENCODE_RENORMALISE. */
  function RenormStep(e: Encoder): Encoder
  {
    if e.L >= Half then BitPlusFollowOf(e, true).(L := 2 * (e.L - Half), R := 2 * e.R)
    else if e.L + e.R <= Half then BitPlusFollowOf(e, false).(L := 2 * e.L, R := 2 * e.R)
    else e.(outstanding := e.outstanding + 1, L := 2 * (e.L - Quarter), R := 2 * e.R)
  }

  /** How many times renormalisation doubles a range of width R. */
  function RenormRounds(R: int): nat
    requires R >= 1
    decreases Quarter - R
  {
    if R > Quarter then 0 else 1 + RenormRounds(2 * R)
  }

  /** ENCODE_RENORMALISE: double the range until it exceeds Quarter, emitting or deferring a bit each time. */
  function EncodeRenormaliseOf(e: Encoder): (r: Encoder)
    requires e.R >= 1
    ensures r.R > Quarter
    ensures r.R == e.R * Pow2(RenormRounds(e.R))
    decreases Quarter - e.R
  {
    if e.R > Quarter then e
    else
      var n := RenormStep(e);
      assert n.R * Pow2(RenormRounds(n.R)) == e.R * Pow2(RenormRounds(e.R));
      EncodeRenormaliseOf(n)
  }

  /** A renormalisation round keeps the invariant and only appends to what was emitted. */
  lemma RenormStepShape(e: Encoder)
    requires CoderShape(e) && e.R <= Quarter
    ensures CoderShape(RenormStep(e))
    ensures Emitted(e) <= Emitted(RenormStep(e))
  {
    if e.L >= Half {
      BitPlusFollowEmits(e, true);
    } else if e.L + e.R <= Half {
      BitPlusFollowEmits(e, false);
    }
  }

  lemma {:induction false} RenormaliseShape(e: Encoder)
    requires CoderShape(e)
    ensures CoderShape(EncodeRenormaliseOf(e))
    ensures Emitted(e) <= Emitted(EncodeRenormaliseOf(e))
    decreases Quarter - e.R
  {
    if e.R <= Quarter {
      RenormStepShape(e);
      RenormaliseShape(RenormStep(e));
    }
  }

  /**
   * While FRUGAL_BITS' flag is set the interval lies in the lower half, so
   * the bit the first BIT_PLUS_FOLLOW would emit is a 0 with no follow
   * bits: dropping it loses only the leading zero every message starts with.
   */
  lemma IgnoredBitIsLeadingZero(e: Encoder)
    requires CoderShape(e) && e.ignoreFirstBit && e.R <= Quarter
    ensures e.L < Half && e.L + e.R <= Half && e.outstanding == 0
    ensures RenormStep(e) == e.(ignoreFirstBit := false, L := 2 * e.L, R := 2 * e.R)
  {
  }

  /** The interval arithmeticEncode narrows [L, L + R) to, with r = R / total; the last symbol also takes the excess. */
  function EncodeInterval(L: int, R: int, low: int, high: int, total: int): (int, int)
    requires total > 0
  {
    var r := R / total;
    (L + low * r, if high < total then (high - low) * r else R - low * r)
  }

  /** The narrowed interval lies inside the old one and is at least r wide. */
  lemma EncodeIntervalInside(L: int, R: int, low: int, high: int, total: int)
    requires 0 <= low < high <= total && TotalInRange(total) && Quarter < R <= Half
    ensures var (L', R') := EncodeInterval(L, R, low, high, total);
      L <= L' && L' + R' <= L + R && R / total <= R'
    ensures 8 <= R / total < 32
  {
    var r := R / total;
    DivAbove(R, total, 8);
    DivBelow(R, total, 32);
    assert total * r <= R;
    AtLeastTimes(high - low, 1, r);
    AtLeastTimes(total, high, r);
    AtLeastTimes(total - low, 1, r);
    if high < total {
      assert (high - low) * r + low * r == high * r;
    } else {
      assert low * r + r <= total * r;
    }
  }

  /** arithmeticEncode: narrow the interval, renormalise, and stop once the follow count exceeds the limit. */
  function ArithmeticEncodeOf(e: Encoder, low: int, high: int, total: int): Outcome<Encoder>
    requires EncoderValid(e) && 0 <= low < high <= total && TotalInRange(total)
  {
    EncodeIntervalInside(e.L, e.R, low, high, total);
    var (L, R) := EncodeInterval(e.L, e.R, low, high, total);
    var n := EncodeRenormaliseOf(e.(L := L, R := R));
    if n.outstanding > MaxBitsOutstanding then Fatal(BitsOutstandingLimit) else Done(n)
  }

  /** Encoding a symbol keeps the invariant and only appends to what was emitted. */
  lemma ArithmeticEncodeValid(e: Encoder, low: int, high: int, total: int)
    requires EncoderValid(e) && 0 <= low < high <= total && TotalInRange(total)
    ensures ArithmeticEncodeOf(e, low, high, total).Done? ==>
      EncoderValid(ArithmeticEncodeOf(e, low, high, total).value) &&
      Emitted(e) <= Emitted(ArithmeticEncodeOf(e, low, high, total).value)
    ensures ArithmeticEncodeOf(e, low, high, total).Fatal? ==>
      ArithmeticEncodeOf(e, low, high, total).error == BitsOutstandingLimit
  {
    EncodeIntervalInside(e.L, e.R, low, high, total);
    var (L, R) := EncodeInterval(e.L, e.R, low, high, total);
    RenormaliseShape(e.(L := L, R := R));
  }

  /** startEncode: the interval [0, Half), nothing outstanding, and the leading zero to be dropped. */
  function StartEncodeOf(e: Encoder): Encoder
  {
    e.(L := 0, R := Half, outstanding := 0, ignoreFirstBit := true)
  }

  lemma StartEncodeValid(e: Encoder)
    requires SinkValid(e)
    ensures EncoderValid(StartEncodeOf(e)) && Emitted(StartEncodeOf(e)) == Emitted(e)
  {
  }

  // ---------------------------------------------------------------------
  // Finishing a message (FRUGAL_BITS)
  // ---------------------------------------------------------------------

  /**
   * finishEncode's test for `n` bits: L rounded up to `n` bits of
   * precision, followed by zeros and followed by ones, both lie in
   * [L, L + R).
   */
  predicate Fits(L: int, R: int, n: nat)
    requires n <= 32
  {
    var s := Pow2(32 - n);
    var value := ((L + s - 1) / s) * s;
    L <= value && value + (s - 1) <= L + (R - 1)
  }

  /** The loop `for (nbits = n; nbits <= B_BITS; nbits++)` up to its first break, or 33 when it never breaks. */
  function FinishBitCountFrom(L: int, R: int, n: nat): (c: nat)
    requires 1 <= n <= 33
    ensures n <= c <= 33
    ensures c <= 32 ==> Fits(L, R, c)
    ensures forall k :: n <= k < c ==> !Fits(L, R, k)
    decreases 33 - n
  {
    if n == 33 then 33 else if Fits(L, R, n) then n else FinishBitCountFrom(L, R, n + 1)
  }

  /** The number of bits finishEncode emits: the least `n` that fits. */
  function FinishBitCount(L: int, R: int): (c: nat)
    requires R >= 1
    ensures 1 <= c <= 32 && Fits(L, R, c)
    ensures forall k :: 1 <= k < c ==> !Fits(L, R, k)
  {
    var c := FinishBitCountFrom(L, R, 1);
    assert Fits(L, R, 32);
    c
  }

  /** The `n` bits finishEncode emits: L rounded up to `n` bits of precision. */
  function FinishBits(L: int, n: nat): int
    requires n <= 32
  {
    (L + Pow2(32 - n) - 1) / Pow2(32 - n)
  }

  /** BIT_PLUS_FOLLOW of bits n - 1 down to 0 of `bits`. */
  function EmitBitsOf(e: Encoder, bits: int, n: nat): Encoder
    decreases n
  {
    if n == 0 then e else EmitBitsOf(BitPlusFollowOf(e, (bits / Pow2(n - 1)) % 2 == 1), bits, n - 1)
  }

  /** finishEncode: emit the fewest bits that pin a code value inside the final interval. */
  function FinishEncodeOf(e: Encoder): Encoder
    requires e.R >= 1
  {
    var c := FinishBitCount(e.L, e.R);
    EmitBitsOf(e, FinishBits(e.L, c), c)
  }

  lemma Pow2Add(a: nat, b: nat)
    ensures Pow2(a + b) == Pow2(a) * Pow2(b)
    decreases a
  {
    if a > 0 {
      Pow2Add(a - 1, b);
    }
  }

  lemma DivDiv(x: int, a: int, b: int)
    requires a >= 1 && b >= 1
    ensures x / a / b == x / (a * b)
  {
    var q := x / a / b;
    assert x == a * (b * q + (x / a) % b) + x % a;
    assert x == (a * b) * q + (a * ((x / a) % b) + x % a);
    assert a * ((x / a) % b) <= a * (b - 1);
    DivModUnique(x, a * b, q, a * ((x / a) % b) + x % a);
  }

  /** The most significant of the low `n` bits comes first. */
  lemma {:induction false} BitsOfTop(x: int, n: nat)
    requires n >= 1
    ensures BitsOf(x, n) == [(x / Pow2(n - 1)) % 2 == 1] + BitsOf(x, n - 1)
    decreases n
  {
    if n > 1 {
      BitsOfTop(x / 2, n - 1);
      DivDiv(x, 2, Pow2(n - 2));
      Associate([(x / Pow2(n - 1)) % 2 == 1], BitsOf(x / 2, n - 2), [x % 2 == 1]);
    }
  }

  /** With nothing outstanding and the flag clear, EmitBitsOf appends exactly the bits. */
  lemma {:induction false} EmitBitsAppends(e: Encoder, bits: int, n: nat)
    requires SinkValid(e) && e.outstanding == 0 && !e.ignoreFirstBit
    ensures SinkValid(EmitBitsOf(e, bits, n)) && EmitBitsOf(e, bits, n).outstanding == 0
    ensures !EmitBitsOf(e, bits, n).ignoreFirstBit
    ensures Emitted(EmitBitsOf(e, bits, n)) == Emitted(e) + BitsOf(bits, n)
    ensures EmitBitsOf(e, bits, n).L == e.L && EmitBitsOf(e, bits, n).R == e.R
    decreases n
  {
    if n > 0 {
      var b := (bits / Pow2(n - 1)) % 2 == 1;
      var f := BitPlusFollowOf(e, b);
      EmitOneBit(e, b);
      EmitBitsAppends(f, bits, n - 1);
      BitsOfTop(bits, n);
      Associate(Emitted(e), [b], BitsOf(bits, n - 1));
    }
  }

  /** With nothing outstanding and the flag clear, BIT_PLUS_FOLLOW appends just its bit. */
  lemma EmitOneBit(e: Encoder, b: bool)
    requires SinkValid(e) && e.outstanding == 0 && !e.ignoreFirstBit
    ensures var f := BitPlusFollowOf(e, b);
      SinkValid(f) && f.outstanding == 0 && !f.ignoreFirstBit && f.L == e.L && f.R == e.R &&
      Emitted(f) == Emitted(e) + [b]
  {
    BitPlusFollowEmits(e, b);
    assert Repeat(!b, 0) == [];
  }

  /**
   * finishEncode emits the fewest bits `c` such that every code value
   * starting with them lies in [L, L + R): its first bit with the follow
   * bits, then the other c - 1. While the FRUGAL_BITS flag is still set
   * that first bit is a 0 and is dropped.
   */
  lemma FinishEncodeEmits(e: Encoder)
    requires CoderShape(e)
    ensures var c := FinishBitCount(e.L, e.R);
      var bits := FinishBits(e.L, c);
      var top := (bits / Pow2(c - 1)) % 2 == 1;
      var f := FinishEncodeOf(e);
      e.L <= bits * Pow2(32 - c) && bits * Pow2(32 - c) + Pow2(32 - c) - 1 <= e.L + e.R - 1 &&
      SinkValid(f) && f.outstanding == 0 && !f.ignoreFirstBit &&
      (e.ignoreFirstBit ==> !top && Emitted(f) == Emitted(e) + BitsOf(bits, c - 1)) &&
      (!e.ignoreFirstBit ==> Emitted(f) == Emitted(e) + [top] + Repeat(!top, e.outstanding) + BitsOf(bits, c - 1))
  {
    var c := FinishBitCount(e.L, e.R);
    var bits := FinishBits(e.L, c);
    var top := (bits / Pow2(c - 1)) % 2 == 1;
    BitPlusFollowEmits(e, top);
    var e1 := BitPlusFollowOf(e, top);
    EmitBitsAppends(e1, bits, c - 1);
    if e.ignoreFirstBit {
      LeadingZero(e.L, e.R, c);
    }
  }

  /** Inside the lower half, the first of the emitted bits is a 0. */
  lemma LeadingZero(L: int, R: int, c: nat)
    requires 0 <= L && 1 <= R && L + R <= Half && 1 <= c <= 32 && Fits(L, R, c)
    ensures (FinishBits(L, c) / Pow2(c - 1)) % 2 == 0
  {
    var s := Pow2(32 - c);
    var bits := FinishBits(L, c);
    var p := Pow2(c - 1);
    Pow2Add(c - 1, 32 - c);
    Pow2Facts();
    assert bits * s < p * s;
    assert bits >= 0;
    BelowPower(bits, p, s);
  }

  lemma BelowPower(bits: int, p: int, s: int)
    requires s >= 1 && p >= 1 && bits * s < p * s && bits >= 0
    ensures bits / p == 0
  {
    if bits >= p {
      AtLeastTimes(bits, p, s);
    }
  }

  /** doneOutputtingBits: write the partial byte, left-aligned, when bits are waiting. */
  function DoneOutputtingBitsOf(e: Encoder): Encoder
  {
    var w := if e.bitsToGo != ByteSize then PutCharOf(e, e.buffer * Pow2(if e.bitsToGo >= 0 then e.bitsToGo else 0)) else e;
    w.(bitsToGo := ByteSize)
  }

  /** Finishing the output pads what was emitted with zeros to a whole number of bytes, and writes nothing else. */
  lemma DoneOutputtingPads(e: Encoder)
    requires SinkValid(e)
    ensures SinkValid(DoneOutputtingBitsOf(e))
    ensures var pad := if e.bitsToGo == 8 then 0 else e.bitsToGo;
      BytesBits(DoneOutputtingBitsOf(e).bytes) == Emitted(e) + Repeat(false, pad) &&
      Emitted(DoneOutputtingBitsOf(e)) == BytesBits(DoneOutputtingBitsOf(e).bytes)
  {
    if e.bitsToGo != 8 {
      var t := e.bitsToGo;
      BitsOfShifted(e.buffer, 8 - t, t);
      AppendByte(e.bytes, e.buffer * Pow2(t));
      Associate(BytesBits(e.bytes), BitsOf(e.buffer, 8 - t), Repeat(false, t));
    } else {
      assert Repeat(false, 0) == [];
    }
  }

  // ---------------------------------------------------------------------
  // The decoder's arithmetic
  // ---------------------------------------------------------------------

  /** R / total as arithmeticDecodeTarget and arithmeticEncode divide it: M = total << 4, then four rounds. */
  function RatioOf(R: int, total: int): int
  {
    ShiftQuotient(R, total * Pow2(BBits - FBits - 1), BBits - FBits - 1)
  }

  /** The shift/add ratio is the true quotient R / total. */
  lemma RatioIsQuotient(R: int, total: int)
    requires TotalInRange(total) && 0 <= R <= Half
    ensures RatioOf(R, total) == R / total
  {
    Pow2Facts();
    ShiftQuotientIs(R, total * 16, 4);
    DivScale(R, total, 16);
    DivBelow(R, total, 32);
  }

  /** The target division of arithmeticDecodeTarget, before the clamp: M = r << 27 and 27 rounds, or r << 26 and 26. */
  function TargetDivision(D: int, r: int): int
  {
    if r < Pow2(BBits - FBits - 1) then ShiftQuotient(D, r * Pow2(FBits), FBits)
    else ShiftQuotient(D, r * Pow2(FBits - 1), FBits - 1)
  }

  /** The target with the clamp to the last frequency. */
  function TargetOf(D: int, r: int, total: int): int
  {
    var target := TargetDivision(D, r);
    if target >= total then total - 1 else target
  }

  /** The decoder's target is D / r clamped to total - 1; a negative offset gives 0. */
  lemma TargetIsQuotient(D: int, r: int, total: int)
    requires TotalInRange(total) && r >= 1
    ensures TargetOf(D, r, total) == if D < 0 then 0 else Min(D / r, total - 1)
  {
    Pow2Facts();
    if r < 16 {
      ShiftQuotientIs(D, r * Pow2(27), 27);
      DivScale(D, r, Pow2(27));
    } else {
      ShiftQuotientIs(D, r * Pow2(26), 26);
      DivScale(D, r, Pow2(26));
      Pow2Add(1, 26);
    }
  }

  /**
   * If the code value lies in the interval the encoder narrowed [L, L + R)
   * to for [low, high), the decoder, holding D = V - L and the same R,
   * finds a target in [low, high) and is left with the same interval.
   */
  lemma DecodeFindsEncoded(L: int, R: int, V: int, low: int, high: int, total: int)
    requires 0 <= low < high <= total && TotalInRange(total) && Quarter < R <= Half
    requires var (L', R') := EncodeInterval(L, R, low, high, total); L' <= V < L' + R'
    ensures low <= TargetOf(V - L, R / total, total) < high
    ensures var (L', R') := EncodeInterval(L, R, low, high, total);
      V - L - low * (R / total) == V - L' &&
      R' == if high < total then (high - low) * (R / total) else R - low * (R / total)
  {
    var r := R / total;
    var iv := EncodeInterval(L, R, low, high, total);
    assert iv.0 == L + low * r;
    EncodeIntervalInside(L, R, low, high, total);
    var D := V - L;
    assert low * r <= D;
    if high < total {
      assert iv.1 == (high - low) * r;
      Distribute2(low, high, r);
      assert D < high * r;
    }
    QuotientInRange(D, r, low, high, total);
    TargetIsQuotient(D, r, total);
  }

  lemma Distribute2(low: int, high: int, r: int)
    ensures low * r + (high - low) * r == high * r
  {
  }

  lemma QuotientInRange(D: int, r: int, low: int, high: int, total: int)
    requires r >= 1 && 0 <= low < high <= total && low * r <= D
    requires high < total ==> D < high * r
    ensures low <= Min(D / r, total - 1) < high
  {
    DivAbove(D, r, low);
    if high < total {
      DivBelow(D, r, high);
    }
  }

  /** arithmeticDecode's product: the bit of M = r << 27 at Half, then four more after each left shift, adding `low` for each set bit. */
  function MaskProduct(m: int, low: int, n: nat): int
  {
    if n == 0 then (if (m / Half) % 2 == 1 then low else 0)
    else 2 * MaskProduct(m, low, n - 1) + (if ((m * Pow2(n)) / Half) % 2 == 1 then low else 0)
  }

  /** The tested bits are those of r from bit 4 down: the product is low times the last five bits of r. */
  lemma {:induction false} MaskProductIs(r: int, low: int, n: nat)
    requires r >= 0 && n <= 4
    ensures MaskProduct(r * Pow2(FBits), low, n) == low * ((r / Pow2(4 - n)) % Pow2(n + 1))
    decreases n
  {
    BitTested(r, n);
    if n == 0 {
      assert Pow2(1) == 2;
    } else {
      MaskProductIs(r, low, n - 1);
      var x := r / Pow2(4 - n);
      var p := Pow2(n);
      assert Pow2(4 - (n - 1)) == Pow2(4 - n) * 2;
      DivDiv(r, Pow2(4 - n), 2);
      assert MaskProduct(r * Pow2(FBits), low, n - 1) == low * ((x / 2) % p);
      Recombine(low, x, p);
      BitTimes(low, x);
      assert Pow2(n + 1) == 2 * p;
    }
  }

  /** Bit 31 of (r << 27) << n is bit 4 - n of r. */
  lemma BitTested(r: int, n: nat)
    requires r >= 0 && n <= 4
    ensures (r * Pow2(FBits) * Pow2(n)) / Half == r / Pow2(4 - n)
    ensures n == 0 ==> (r * Pow2(FBits)) / Half == r / Pow2(4)
  {
    Pow2Facts();
    Pow2Add(27, n);
    Pow2Add(4 - n, 27 + n);
    MulAssoc(r, Pow2(27), Pow2(n));
    DivScale(r, Pow2(4 - n), Pow2(27 + n));
  }

  lemma MulAssoc(a: int, b: int, c: int)
    ensures a * b * c == a * (b * c)
  {
  }

  lemma Recombine(low: int, x: int, p: int)
    requires p >= 1
    ensures low * (x % (2 * p)) == 2 * (low * ((x / 2) % p)) + low * (x % 2)
  {
    ModDouble(x, p);
  }

  /** With r below 32, as it is when R <= Half and total > 2^26, the product is exact. */
  lemma MaskProductExact(r: int, low: int)
    requires 0 <= r < 32
    ensures MaskProduct(r * Pow2(FBits), low, 4) == low * r
  {
    MaskProductIs(r, low, 4);
    assert Pow2(0) == 1 && Pow2(5) == 32;
    FiveBits(r);
  }

  lemma FiveBits(r: int)
    requires 0 <= r < 32
    ensures (r / 1) % 32 == r
  {
  }

  lemma BitTimes(low: int, x: int)
    ensures (if x % 2 == 1 then low else 0) == low * (x % 2)
  {
    if x % 2 == 1 {
    } else {
      assert x % 2 == 0;
    }
  }

  // ---------------------------------------------------------------------
  // Bit input
  // ---------------------------------------------------------------------

  /**
   * The input side: the byte being read, the bit pointer into it (the
   * next bit to read; 0 when the byte is used up), the number of bytes
   * read past the end, and the input device: its bytes and read position.
   */
  datatype Reader = Reader(inBuffer: int, inBitPtr: int, inGarbage: int, input: seq<Byte>, pos: nat)

  /** What an input device delivers. */
  type Byte = c: int | 0 <= c < 256

  /** The number of bits left in the buffer for a bit pointer: 0 for 0, k + 1 for 2^k. */
  function PtrWidth(p: int): nat
    decreases p
  {
    if p <= 0 then 0 else 1 + PtrWidth(p / 2)
  }

  lemma {:induction false} PtrWidthOfPower(k: nat)
    ensures PtrWidth(Pow2(k)) == k + 1
    decreases k
  {
    if k > 0 {
      PtrWidthOfPower(k - 1);
      assert Pow2(k) / 2 == Pow2(k - 1);
    }
  }

  predicate IsByte(c: int)
  {
    0 <= c < 256
  }

  /** The bit pointer is 0 or a power of two up to 128, the buffer holds a byte, and the read position is in the input. */
  predicate ReaderValid(rd: Reader)
  {
    0 <= rd.inBitPtr <= 128 && (rd.inBitPtr == 0 || rd.inBitPtr == Pow2(PtrWidth(rd.inBitPtr) - 1)) &&
    IsByte(rd.inBuffer) && 0 <= rd.inGarbage && rd.pos <= |rd.input|
  }

  /** The bits still to be read: those left in the buffer, then the rest of the input. */
  function Unread(rd: Reader): seq<bool>
    requires rd.pos <= |rd.input|
  {
    BitsOf(rd.inBuffer, PtrWidth(rd.inBitPtr)) + BytesBits(rd.input[rd.pos..])
  }

  /** getChar: the next byte, or 0 (the device clears the character first) and end of file. */
  function GetCharOf(rd: Reader): (Reader, bool)
  {
    if rd.pos < |rd.input| then (rd.(inBuffer := rd.input[rd.pos], pos := rd.pos + 1), false)
    else (rd.(inBuffer := 0), true)
  }

  /**
   * ADD_NEXT_INPUT_BIT(v, garbageBits): refill the buffer when it is used
   * up, counting a read past the end and stopping once more than
   * garbageBits / 8 + 1 such reads happened; then shift the bit the
   * pointer selects into v and move the pointer on.
   */
  function AddNextInputBitOf(rd: Reader, v: int, garbageBits: int): Outcome<(Reader, int)>
  {
    if rd.inBitPtr == 0 then
      var (g, eof) := GetCharOf(rd);
      var g1 := if eof then g.(inGarbage := g.inGarbage + 1) else g;
      if eof && (g1.inGarbage - 1) * 8 >= garbageBits then Fatal(ReadPastEndOfFile)
      else Done((g1.(inBitPtr := 64), 2 * v + (if (g1.inBuffer / 128) % 2 == 1 then 1 else 0)))
    else Done((rd.(inBitPtr := rd.inBitPtr / 2), 2 * v + (if (rd.inBuffer / rd.inBitPtr) % 2 == 1 then 1 else 0)))
  }

  /** `n` applications of ADD_NEXT_INPUT_BIT to v. */
  function ReadBitsOf(rd: Reader, v: int, n: nat, garbageBits: int): Outcome<(Reader, int)>
    decreases n
  {
    if n == 0 then Done((rd, v))
    else match AddNextInputBitOf(rd, v, garbageBits)
      case Fatal(e) => Fatal(e)
      case Done(x) => ReadBitsOf(x.0, x.1, n - 1, garbageBits)
  }

  /** UNGET_BIT(b): move the pointer back one bit (wrapping as an unsigned char does) and put b there. */
  function UngetBitOf(rd: Reader, b: bool): Reader
  {
    var p := (2 * rd.inBitPtr) % 256;
    var p1 := if p == 0 then 1 else p;
    rd.(inBitPtr := p1, inBuffer := rd.inBuffer % p1 + (if b then p1 else 0))
  }

  lemma BytesBitsAppend(a: seq<int>, b: seq<int>)
    ensures BytesBits(a + b) == BytesBits(a) + BytesBits(b)
    decreases |b|
  {
    if b != [] {
      var b' := b[..|b| - 1];
      assert (a + b)[..|a + b| - 1] == a + b';
      BytesBitsAppend(a, b');
      Associate(BytesBits(a), BytesBits(b'), BitsOf(b[|b| - 1], 8));
    } else {
      assert a + b == a;
    }
  }

  /** The input's bits start with those of its first byte. */
  lemma BytesBitsFirst(s: seq<int>)
    requires s != []
    ensures BytesBits(s) == BitsOf(s[0], 8) + BytesBits(s[1..])
  {
    assert s == [s[0]] + s[1..];
    BytesBitsAppend([s[0]], s[1..]);
    assert [s[0]][..0] == [];
  }

  /** While bits remain, ADD_NEXT_INPUT_BIT shifts the first of them into v and consumes it. */
  lemma ReadsNextBit(rd: Reader, v: int, garbageBits: int)
    requires ReaderValid(rd) && Unread(rd) != []
    ensures AddNextInputBitOf(rd, v, garbageBits).Done?
    ensures var (rd', v') := AddNextInputBitOf(rd, v, garbageBits).value;
      ReaderValid(rd') && v' == 2 * v + Bit(Unread(rd)[0]) && Unread(rd') == Unread(rd)[1..] &&
      rd'.inGarbage == rd.inGarbage && rd'.input == rd.input
  {
    if rd.inBitPtr == 0 {
      ReadsNewByte(rd, v, garbageBits);
    } else {
      ReadsBufferedBit(rd, v, garbageBits);
    }
  }

  /** With the buffer used up and input left, the next byte is fetched and its top bit read. */
  lemma ReadsNewByte(rd: Reader, v: int, garbageBits: int)
    requires ReaderValid(rd) && Unread(rd) != [] && rd.inBitPtr == 0
    ensures AddNextInputBitOf(rd, v, garbageBits).Done?
    ensures var (rd', v') := AddNextInputBitOf(rd, v, garbageBits).value;
      ReaderValid(rd') && v' == 2 * v + Bit(Unread(rd)[0]) && Unread(rd') == Unread(rd)[1..] &&
      rd'.inGarbage == rd.inGarbage && rd'.input == rd.input
  {
    assert BitsOf(rd.inBuffer, 0) == [];
    assert rd.pos < |rd.input|;
    var c := rd.input[rd.pos];
    var rd' := rd.(inBuffer := c, pos := rd.pos + 1, inBitPtr := 64);
    var top := (c / 128) % 2 == 1;
    assert AddNextInputBitOf(rd, v, garbageBits) == Done((rd', 2 * v + Bit(top)));
    var rest := BytesBits(rd.input[rd.pos + 1..]);
    BytesBitsFirst(rd.input[rd.pos..]);
    assert rd.input[rd.pos..][1..] == rd.input[rd.pos + 1..];
    assert Unread(rd) == BitsOf(c, 8) + rest;
    Pow2Facts();
    BitsOfTop(c, 8);
    assert Pow2(7) == 128;
    PtrWidthOfPower(6);
    assert Pow2(6) == 64;
    assert Unread(rd') == BitsOf(c, 7) + rest;
    Associate([top], BitsOf(c, 7), rest);
  }

  /** With bits left in the buffer, the one the pointer selects is read. */
  lemma ReadsBufferedBit(rd: Reader, v: int, garbageBits: int)
    requires ReaderValid(rd) && rd.inBitPtr != 0
    ensures AddNextInputBitOf(rd, v, garbageBits).Done?
    ensures var (rd', v') := AddNextInputBitOf(rd, v, garbageBits).value;
      ReaderValid(rd') && v' == 2 * v + Bit(Unread(rd)[0]) && Unread(rd') == Unread(rd)[1..] &&
      rd'.inGarbage == rd.inGarbage && rd'.input == rd.input
  {
    var p := rd.inBitPtr;
    var w := PtrWidth(p);
    var top := (rd.inBuffer / p) % 2 == 1;
    var rd' := rd.(inBitPtr := p / 2);
    assert AddNextInputBitOf(rd, v, garbageBits) == Done((rd', 2 * v + Bit(top)));
    var rest := BytesBits(rd.input[rd.pos..]);
    BitsOfTop(rd.inBuffer, w);
    HalvePointer(p);
    assert Unread(rd) == [top] + BitsOf(rd.inBuffer, w - 1) + rest;
    assert Unread(rd') == BitsOf(rd.inBuffer, w - 1) + rest;
    Associate([top], BitsOf(rd.inBuffer, w - 1), rest);
  }

  /** Moving a valid pointer on leaves one bit fewer. */
  lemma HalvePointer(p: int)
    requires 1 <= p <= 128 && p == Pow2(PtrWidth(p) - 1)
    ensures PtrWidth(p / 2) == PtrWidth(p) - 1
    ensures p / 2 == 0 || p / 2 == Pow2(PtrWidth(p / 2) - 1)
  {
    if p > 1 {
      assert Pow2(PtrWidth(p) - 1) == 2 * Pow2(PtrWidth(p) - 2);
    }
  }

  /**
   * UNGET_BIT puts one bit back in front of what remains to be read; it is
   * only good for one bit between reads, as the pointer must not be at the
   * top of the byte already.
   */
  lemma UngetBitPrepends(rd: Reader, b: bool)
    requires ReaderValid(rd) && rd.inBitPtr < 128
    ensures ReaderValid(UngetBitOf(rd, b))
    ensures Unread(UngetBitOf(rd, b)) == [b] + Unread(rd)
  {
    if rd.inBitPtr == 0 {
      UngetIntoEmpty(rd, b);
    } else {
      UngetIntoPartial(rd, b);
    }
  }

  lemma UngetIntoEmpty(rd: Reader, b: bool)
    requires ReaderValid(rd) && rd.inBitPtr == 0
    ensures ReaderValid(UngetBitOf(rd, b))
    ensures Unread(UngetBitOf(rd, b)) == [b] + Unread(rd)
  {
    var u := rd.(inBitPtr := 1, inBuffer := Bit(b));
    assert UngetBitOf(rd, b) == u;
    var rest := BytesBits(rd.input[rd.pos..]);
    assert Unread(rd) == rest by {
      assert BitsOf(rd.inBuffer, 0) == [];
      assert [] + rest == rest;
    }
    assert Unread(u) == [b] + rest by {
      assert PtrWidth(1) == 1 by {
        assert PtrWidth(0) == 0;
      }
      UngetFrame(rd, u, 0);
      assert BitsOf(u.inBuffer, 1) == [b];
    }
  }

  lemma UngetIntoPartial(rd: Reader, b: bool)
    requires ReaderValid(rd) && 0 < rd.inBitPtr < 128
    ensures ReaderValid(UngetBitOf(rd, b))
    ensures Unread(UngetBitOf(rd, b)) == [b] + Unread(rd)
  {
    var w := PtrWidth(rd.inBitPtr);
    UngetPointer(rd, b);
    UngetUnread(rd, w, b);
  }

  lemma UngetPointer(rd: Reader, b: bool)
    requires ReaderValid(rd) && 0 < rd.inBitPtr < 128
    ensures var w := PtrWidth(rd.inBitPtr);
      Pow2(w) <= 128 && PtrWidth(Pow2(w)) == w + 1 &&
      UngetBitOf(rd, b) == rd.(inBitPtr := Pow2(w), inBuffer := rd.inBuffer % Pow2(w) + Bit(b) * Pow2(w))
  {
    var p := rd.inBitPtr;
    var w := PtrWidth(p);
    assert p == Pow2(w - 1);
    DoubledPointer(w - 1);
    var q := Pow2(w);
    assert (2 * p) % 256 == q;
    assert (if b then q else 0) == Bit(b) * q;
  }

  /** Moving a valid pointer below the top back by one bit gives the next power of two. */
  lemma DoubledPointer(k: nat)
    requires Pow2(k) < 128
    ensures 2 * Pow2(k) == Pow2(k + 1) <= 128 && PtrWidth(Pow2(k + 1)) == k + 2
  {
    PtrWidthOfPower(k + 1);
    SmallPower(k);
  }

  lemma UngetUnread(rd: Reader, w: nat, b: bool)
    requires ReaderValid(rd) && w == PtrWidth(rd.inBitPtr) && Pow2(w) <= 128 && PtrWidth(Pow2(w)) == w + 1
    ensures var u := rd.(inBitPtr := Pow2(w), inBuffer := rd.inBuffer % Pow2(w) + Bit(b) * Pow2(w));
      ReaderValid(u) && Unread(u) == [b] + Unread(rd)
  {
    var q := Pow2(w);
    var y := rd.inBuffer % q + Bit(b) * q;
    var u := rd.(inBitPtr := q, inBuffer := y);
    PutBitBack(rd.inBuffer, w, b);
    UngetFrame(rd, u, w);
    var rest := BytesBits(rd.input[rd.pos..]);
    calc {
      Unread(u);
      BitsOf(y, w + 1) + rest;
      ([b] + BitsOf(rd.inBuffer, w)) + rest;
      { Associate([b], BitsOf(rd.inBuffer, w), rest); }
      [b] + (BitsOf(rd.inBuffer, w) + rest);
      [b] + Unread(rd);
    }
  }

  lemma UngetFrame(rd: Reader, u: Reader, w: nat)
    requires ReaderValid(rd) && u == rd.(inBitPtr := u.inBitPtr, inBuffer := u.inBuffer)
    requires u.inBitPtr == Pow2(w) <= 128 && PtrWidth(u.inBitPtr) == w + 1 && IsByte(u.inBuffer)
    ensures ReaderValid(u)
    ensures Unread(u) == BitsOf(u.inBuffer, w + 1) + BytesBits(rd.input[rd.pos..])
  {
  }

  lemma SmallPower(k: nat)
    requires Pow2(k) < 128
    ensures 2 * Pow2(k) <= 128
  {
    if k >= 7 {
      Pow2Add(7, k - 7);
    } else {
      Pow2Add(k, 6 - k);
      assert Pow2(6) == 64;
    }
  }

  /** Keeping the low `w` bits and setting bit `w` to b puts b in front of them. */
  lemma PutBitBack(x: int, w: nat, b: bool)
    requires 0 <= x
    ensures BitsOf(x % Pow2(w) + Bit(b) * Pow2(w), w + 1) == [b] + BitsOf(x, w)
    ensures 0 <= x % Pow2(w) + Bit(b) * Pow2(w) < 2 * Pow2(w)
  {
    var q := Pow2(w);
    var y := x % q + Bit(b) * q;
    KeepLowBits(x, q, b);
    BitsOfTop(y, w + 1);
    BitsOfMod(y, x, w);
  }

  lemma KeepLowBits(x: int, q: int, b: bool)
    requires 0 <= x && q >= 1
    ensures (x % q + Bit(b) * q) / q == Bit(b)
    ensures (x % q + Bit(b) * q) % q == x % q
  {
    DivModUnique(x % q + Bit(b) * q, q, Bit(b), x % q);
  }

  /** startInputtingBits */
  function StartInputtingBitsOf(rd: Reader): Reader
  {
    rd.(inGarbage := 0, inBitPtr := 0)
  }

  /** doneInputtingBits: drop what is left of the buffered byte. */
  function DoneInputtingBitsOf(rd: Reader): Reader
  {
    rd.(inBitPtr := 0)
  }

  /** Reading `n` bits into v appends them to v's binary digits. */
  lemma {:induction false} ReadBitsBound(rd: Reader, v: int, n: nat, garbageBits: int)
    requires v >= 0
    ensures ReadBitsOf(rd, v, n, garbageBits).Done? ==>
      v * Pow2(n) <= ReadBitsOf(rd, v, n, garbageBits).value.1 < (v + 1) * Pow2(n)
    decreases n
  {
    if n > 0 {
      var o := AddNextInputBitOf(rd, v, garbageBits);
      if o.Done? {
        var v1 := o.value.1;
        assert 2 * v <= v1 <= 2 * v + 1;
        ReadBitsBound(o.value.0, v1, n - 1, garbageBits);
        assert v1 * Pow2(n - 1) >= (2 * v) * Pow2(n - 1) by {
          AtLeastTimes(v1, 2 * v, Pow2(n - 1));
        }
        assert (v1 + 1) * Pow2(n - 1) <= (2 * v + 2) * Pow2(n - 1) by {
          AtLeastTimes(2 * v + 2, v1 + 1, Pow2(n - 1));
        }
        Regroup(v, Pow2(n - 1));
        Regroup(v + 1, Pow2(n - 1));
      }
    }
  }

  // ---------------------------------------------------------------------
  // The decoder
  // ---------------------------------------------------------------------

  /**
   * The decoder's state: D = V - L (the code value's offset in the
   * interval), R, the ratio r = R / total of the last target, the bit
   * window V, the FRUGAL_BITS first-message flag, and the bit input.
   */
  datatype Decoder = Decoder(D: int, R: int, r: int, V: int, firstMessage: bool, reader: Reader)

  /** DECODE_RENORMALISE (FRUGAL_BITS): double R, and shift the next input bit into both D and V. */
  function DecodeRenormaliseOf(d: Decoder): (o: Outcome<Decoder>)
    requires d.R >= 1
    ensures o.Done? ==> o.value.R > Quarter && o.value.R == d.R * Pow2(RenormRounds(d.R))
    ensures o.Done? ==> o.value.r == d.r && o.value.firstMessage == d.firstMessage
    decreases Quarter - d.R
  {
    if d.R > Quarter then Done(d)
    else match AddNextInputBitOf(d.reader, d.D, BBits)
      case Fatal(e) => Fatal(e)
      case Done(x) =>
        var D := x.1;
        var n := d.(R := 2 * d.R, V := 2 * d.V + (if D % 2 == 1 then 1 else 0), D := D, reader := x.0);
        assert n.R * Pow2(RenormRounds(n.R)) == d.R * Pow2(RenormRounds(d.R));
        DecodeRenormaliseOf(n)
  }

  /** arithmeticDecodeTarget: r = R / total by shifts and adds, then the target D / r clamped to total - 1. */
  function DecodeTargetOf(d: Decoder, total: int): (Decoder, int)
  {
    var r := RatioOf(d.R, total);
    (d.(r := r), TargetOf(d.D, r, total))
  }

  /** The decoder's invariant between symbols: renormalised, and D inside the range. */
  predicate DecoderValid(d: Decoder)
  {
    Quarter < d.R <= Half && ReaderValid(d.reader)
  }

  /** The target lies below total, and is the quotient D / (R / total) whenever that does. */
  lemma DecodeTargetIs(d: Decoder, total: int)
    requires DecoderValid(d) && TotalInRange(total)
    ensures DecodeTargetOf(d, total).0 == d.(r := d.R / total)
    ensures 8 <= d.R / total < 32
    ensures 0 <= DecodeTargetOf(d, total).1 < total
    ensures DecodeTargetOf(d, total).1 == if d.D < 0 then 0 else Min(d.D / (d.R / total), total - 1)
  {
    var r := d.R / total;
    RatioIsQuotient(d.R, total);
    RatioBounds(d.R, total);
    TargetIsQuotient(d.D, r, total);
    if d.D >= 0 {
      DivAbove(d.D, r, 0);
    }
  }

  /** With Quarter < R <= Half and a partially normalised total, 8 <= R / total < 32. */
  lemma RatioBounds(R: int, total: int)
    requires Quarter < R <= Half && TotalInRange(total)
    ensures 8 <= R / total < 32
  {
    DivAbove(R, total, 8);
    DivBelow(R, total, 32);
  }

  /** arithmeticDecode: narrow D and R as the encoder narrowed L and R, then renormalise. */
  function ArithmeticDecodeOf(d: Decoder, low: int, high: int, total: int): Outcome<Decoder>
    requires 0 <= low < high <= total && TotalInRange(total) && Quarter < d.R <= Half && d.r == d.R / total
  {
    DecodeRenormaliseOf(DecodeNarrowOf(d, low, high, total))
  }

  /** The narrowing step of arithmeticDecode, with the products formed by testing the bits of r << 27. */
  function DecodeNarrowOf(d: Decoder, low: int, high: int, total: int): (n: Decoder)
    requires 0 <= low < high <= total && TotalInRange(total) && Quarter < d.R <= Half && d.r == d.R / total
    ensures n.R >= 1
  {
    var m := d.r * Pow2(FBits);
    var temp := MaskProduct(m, low, BBits - FBits - 1);
    var temp2 := MaskProduct(m, high, BBits - FBits - 1);
    EncodeIntervalInside(0, d.R, low, high, total);
    MaskProductExact(d.r, low);
    MaskProductExact(d.r, high);
    var R := if high < total then temp2 - temp else d.R - temp;
    assert R == EncodeInterval(0, d.R, low, high, total).1;
    d.(D := d.D - temp, R := R)
  }

  /**
   * Encoder and decoder stay in step: from the same R, a symbol leaves
   * both with the same R, the decoder's D moves by the encoder's change of
   * L, and the decoder doubles R as many times as the encoder.
   */
  lemma DecodeMirrorsEncode(e: Encoder, d: Decoder, low: int, high: int, total: int)
    requires 0 <= low < high <= total && TotalInRange(total)
    requires EncoderValid(e) && d.R == e.R && d.r == d.R / total
    ensures ArithmeticDecodeOf(d, low, high, total).Done? ==>
      ArithmeticDecodeOf(d, low, high, total).value.R == ArithmeticEncodeR(e, low, high, total)
    ensures ArithmeticEncodeOf(e, low, high, total).Done? ==>
      ArithmeticEncodeOf(e, low, high, total).value.R == ArithmeticEncodeR(e, low, high, total)
  {
    EncodeIntervalInside(e.L, e.R, low, high, total);
    MaskProductExact(d.r, low);
    MaskProductExact(d.r, high);
  }

  /** The encoder's R after a symbol: the narrowed range, doubled by renormalisation. */
  function ArithmeticEncodeR(e: Encoder, low: int, high: int, total: int): int
    requires total > 0 && e.R >= 1
  {
    var R := EncodeInterval(e.L, e.R, low, high, total).1;
    if R >= 1 then R * Pow2(RenormRounds(R)) else R
  }

  /** The excess bits read past the message: V & (2^32 - 1). */
  function RetrieveExcessInputBitsOf(d: Decoder): int
  {
    d.V % (2 * Half)
  }

  /** FATAL("Corrupt input file.") unless D < Half. */
  function CheckStart(d: Decoder): Outcome<Decoder>
  {
    if d.D >= Half then Fatal(CorruptInput) else Done(d)
  }

  /**
   * startDecode (FRUGAL_BITS): R = Half; for the first message D is read
   * as 31 bits (the leading 0 was never written); later messages take the
   * excess bits, give the last one back, and drop it from D.
   */
  function StartDecodeOf(d: Decoder): Outcome<Decoder>
  {
    var d0 := d.(D := 0, R := Half);
    if d.firstMessage then
      match ReadBitsOf(d0.reader, 0, BBits - 1, BBits)
        case Fatal(e) => Fatal(e)
        case Done(x) => CheckStart(d0.(reader := x.0, D := x.1, firstMessage := false, V := x.1))
    else
      var excess := RetrieveExcessInputBitsOf(d0);
      var reader := UngetBitOf(d0.reader, excess % 2 == 1);
      CheckStart(d0.(reader := reader, D := excess / 2, firstMessage := false, V := excess / 2))
  }

  /** The corrupt-input check of startDecode never fires: both ways of filling D give fewer than 31 bits. */
  lemma StartDecodeNeverCorrupt(d: Decoder)
    ensures StartDecodeOf(d) != Fatal(CorruptInput)
    ensures StartDecodeOf(d).Done? ==> StartedDecoding(StartDecodeOf(d).value)
  {
    if d.firstMessage {
      StartFirstMessage(d);
    } else {
      StartLaterMessage(d);
    }
  }

  /** After startDecode: R = Half, D below Half, V = D, and later messages are not the first. */
  predicate StartedDecoding(d: Decoder)
  {
    d.R == Half && 0 <= d.D < Half && d.V == d.D && !d.firstMessage
  }

  lemma StartFirstMessage(d: Decoder)
    requires d.firstMessage
    ensures StartDecodeOf(d) != Fatal(CorruptInput)
    ensures StartDecodeOf(d).Done? ==> StartedDecoding(StartDecodeOf(d).value)
  {
    var d0 := d.(D := 0, R := Half);
    var o := ReadBitsOf(d.reader, 0, BBits - 1, BBits);
    FirstWordBound(d.reader);
    ReadBitsFailsAtEnd(d.reader, 0, BBits - 1, BBits);
    if o.Done? {
      var d1 := d0.(reader := o.value.0, D := o.value.1, firstMessage := false, V := o.value.1);
      assert StartDecodeOf(d) == CheckStart(d1);
    }
  }

  /** Reading bits fails only by running past the end of the input. */
  lemma {:induction false} ReadBitsFailsAtEnd(rd: Reader, v: int, n: nat, garbageBits: int)
    ensures ReadBitsOf(rd, v, n, garbageBits).Fatal? ==>
      ReadBitsOf(rd, v, n, garbageBits).error == ReadPastEndOfFile
    decreases n
  {
    if n > 0 {
      var o := AddNextInputBitOf(rd, v, garbageBits);
      if o.Done? {
        ReadBitsFailsAtEnd(o.value.0, o.value.1, n - 1, garbageBits);
      }
    }
  }

  /** The 31 bits read for a first message stay below Half. */
  lemma FirstWordBound(rd: Reader)
    ensures ReadBitsOf(rd, 0, BBits - 1, BBits).Done? ==>
      0 <= ReadBitsOf(rd, 0, BBits - 1, BBits).value.1 < Half
  {
    ReadBitsBound(rd, 0, 31, 32);
    Pow2Facts();
  }

  lemma StartLaterMessage(d: Decoder)
    requires !d.firstMessage
    ensures StartDecodeOf(d) != Fatal(CorruptInput)
    ensures StartDecodeOf(d).Done? ==> StartedDecoding(StartDecodeOf(d).value)
  {
    var excess := d.V % (2 * Half);
    assert 0 <= excess / 2 < Half;
  }

  /**
   * finishDecode (FRUGAL_BITS): recover L or L + Half from V and D, count
   * the bits finishEncode emitted as it did, and read that many into V.
   */
  function FinishDecodeOf(d: Decoder): Outcome<Decoder>
  {
    var c := FinishDecodeCount(d);
    if c > BBits then Done(d) else ReadIntoV(d, c)
  }

  /** The count finishDecode computes: finishEncode's count for the recovered L. */
  function FinishDecodeCount(d: Decoder): nat
  {
    FinishBitCountFrom(RecoveredLow(d.V, d.D), d.R, 1)
  }

  /** (V & (Half - 1)) + Half - D: the encoder's final L, or L + Half. */
  function RecoveredLow(V: int, D: int): int
  {
    V % Half + Half - D
  }

  /** `n` times ADD_NEXT_INPUT_BIT(V, B_BITS). */
  function ReadIntoV(d: Decoder, n: nat): Outcome<Decoder>
  {
    match ReadBitsOf(d.reader, d.V, n, BBits)
      case Fatal(e) => Fatal(e)
      case Done(x) => Done(d.(reader := x.0, V := x.1))
  }

  /**
   * The count does not care whether the decoder recovered L or L + Half:
   * Half is a multiple of every rounding step, so both fit with the same
   * numbers of bits, and finishDecode consumes what finishEncode emitted.
   */
  lemma FitsIgnoresHalf(L: int, R: int, n: nat)
    requires 1 <= n <= 32
    ensures Fits(L + Half, R, n) <==> Fits(L, R, n)
  {
    var s := Pow2(32 - n);
    var k := Pow2(n - 1);
    HalfSplits(n);
    DivShift(L + s - 1, s, k);
    ShiftedValue((L + s - 1) / s, k, s);
  }

  lemma HalfSplits(n: nat)
    requires 1 <= n <= 32
    ensures Pow2(n - 1) * Pow2(32 - n) == Half
  {
    Pow2Add(n - 1, 32 - n);
    Pow2Facts();
  }

  lemma ShiftedValue(q: int, k: int, s: int)
    ensures (q + k) * s == q * s + k * s
  {
  }

  lemma DivShift(x: int, s: int, k: int)
    requires s >= 1
    ensures (x + k * s) / s == x / s + k
  {
    DivModUnique(x + k * s, s, x / s + k, x % s);
  }

  lemma {:induction false} FinishCountIgnoresHalf(L: int, R: int, n: nat)
    requires 1 <= n <= 33
    ensures FinishBitCountFrom(L + Half, R, n) == FinishBitCountFrom(L, R, n)
    decreases 33 - n
  {
    if n <= 32 {
      FitsIgnoresHalf(L, R, n);
      FinishCountIgnoresHalf(L, R, n + 1);
    }
  }
}
