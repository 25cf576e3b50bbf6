/**
 * The arithmetic encoder (FRUGAL_BITS) against the bit stream a decoder
 * will read: the bits it has committed to, the follow bits it still
 * owes, and the offset of the code value from L, carried through
 * ENCODE_RENORMALISE and fixed at the end by finishEncode.
 */
module ArithStream {
  import opened ArithCoding

  // ---------------------------------------------------------------------
  // Bits as numbers
  // ---------------------------------------------------------------------

  /** The number a sequence of bits spells, most significant first. */
  function Num(s: seq<bool>): (n: nat)
    ensures n < Pow2(|s|)
  {
    if s == [] then 0 else 2 * Num(s[..|s| - 1]) + Bit(s[|s| - 1])
  }

  lemma {:induction false} NumAppend(a: seq<bool>, b: seq<bool>)
    ensures Num(a + b) == Num(a) * Pow2(|b|) + Num(b)
    decreases |b|
  {
    if b == [] {
      assert a + b == a;
    } else {
      var b' := b[..|b| - 1];
      var last := b[|b| - 1];
      assert (a + b)[..|a + b| - 1] == a + b';
      assert (a + b)[|a + b| - 1] == last;
      assert Num(a + b) == 2 * Num(a + b') + Bit(last);
      NumAppend(a, b');
      Twice(Num(a), Pow2(|b'|));
    }
  }

  lemma {:induction false} NumRepeat(b: bool, n: nat)
    ensures Num(Repeat(b, n)) == if b then Pow2(n) - 1 else 0
    decreases n
  {
    if n > 0 {
      assert Repeat(b, n)[..n - 1] == Repeat(b, n - 1);
      NumRepeat(b, n - 1);
    }
  }

  lemma {:induction false} NumBitsOf(x: int, k: nat)
    ensures Num(BitsOf(x, k)) == x % Pow2(k)
    decreases k
  {
    if k > 0 {
      assert BitsOf(x, k)[..k - 1] == BitsOf(x / 2, k - 1);
      NumBitsOf(x / 2, k - 1);
      ModDouble(x, Pow2(k - 1));
    }
  }

  lemma {:induction false} NumZeros(s: seq<bool>)
    requires forall i :: 0 <= i < |s| ==> !s[i]
    ensures Num(s) == 0
    decreases |s|
  {
    if s != [] {
      NumZeros(s[..|s| - 1]);
    }
  }

  lemma Twice(x: int, p: int)
    ensures x * (2 * p) == 2 * (x * p)
  {
  }

  /** One more bit of a window doubles its number and adds the bit. */
  lemma NumSnoc(T: seq<bool>, i: int, j: int)
    requires 0 <= i <= j < |T|
    ensures Num(T[i..j + 1]) == 2 * Num(T[i..j]) + Bit(T[j])
  {
    assert T[i..j + 1][..j - i] == T[i..j];
  }

  // ---------------------------------------------------------------------
  // The encoder against the stream
  // ---------------------------------------------------------------------

  /** While the FRUGAL_BITS flag is still set, nothing has been emitted: a first message into an empty output. */
  predicate FreshWhileFlagged(e: Encoder)
  {
    SinkValid(e) && (e.ignoreFirstBit ==> Emitted(e) == [])
  }

  /** The bits of the stream the encoder has fixed: the leading 0 (dropped, but read as 0) and what it emitted. */
  function Committed(e: Encoder): seq<bool>
    requires SinkValid(e)
  {
    if e.ignoreFirstBit then [] else [false] + Emitted(e)
  }

  /** Where the decoder's 32-bit window starts: past the committed bits and the follow bits still owed. */
  function Pos(e: Encoder): int
    requires SinkValid(e)
  {
    |Committed(e)| + e.outstanding
  }

  /** The encoder's committed bits begin T, and T extends 32 bits past its window. */
  predicate Tracks(e: Encoder, T: seq<bool>)
  {
    FreshWhileFlagged(e) && 0 <= e.outstanding &&
    Committed(e) <= T && Pos(e) + 32 <= |T|
  }

  /**
   * The code value's offset from L: the window of T after the committed
   * bits, scaled so that the outstanding follow bits count as they will
   * once resolved, less L.
   */
  function Offset(e: Encoder, T: seq<bool>): int
    requires Tracks(e, T)
  {
    WindowOffset(T, |Committed(e)|, e.outstanding, e.L)
  }

  /** The offset for c committed bits, o follow bits owed and low end L. */
  function WindowOffset(T: seq<bool>, c: nat, o: nat, L: int): int
    requires c + o + 32 <= |T|
  {
    Num(T[c..c + o + 32]) - 0x8000_0000 * (Pow2(o) - 1) - L
  }

  /** The action of emitting b and its follow bits on the window's number. */
  lemma EmitWindow(T: seq<bool>, c: nat, o: nat, b: bool)
    requires c + o + 33 <= |T| && T[c..c + o + 1] == [b] + Repeat(!b, o)
    ensures Num(T[c + o + 1..c + o + 33]) ==
      2 * Num(T[c..c + o + 32]) + Bit(T[c + o + 32]) - 0x1_0000_0000 * (if b then Pow2(o) else Pow2(o) - 1)
  {
    var A, W1, W := T[c..c + o + 1], T[c + o + 1..c + o + 33], T[c..c + o + 32];
    var X := A + W1;
    assert X[..o + 32] == W && X[o + 32] == T[c + o + 32];
    assert Num(X) == 2 * Num(W) + Bit(T[c + o + 32]);
    NumAppendWord(A, W1);
    NumCons(b, Repeat(!b, o));
    NumRepeat(!b, o);
  }

  /** A bit in front counts 2^|s|. */
  lemma NumCons(b: bool, s: seq<bool>)
    ensures Num([b] + s) == (if b then Pow2(|s|) else 0) + Num(s)
  {
    NumAppend([b], s);
    assert [b][..0] == [];
    if b {
      Times1(Num([b]), Pow2(|s|));
    } else {
      Times0(Num([b]), Pow2(|s|));
    }
  }

  lemma Times1(x: int, p: int)
    requires x == 1
    ensures x * p == p
  {
  }

  lemma Times0(x: int, p: int)
    requires x == 0
    ensures x * p == 0
  {
  }

  /** Appending a 32-bit word. */
  lemma NumAppendWord(a: seq<bool>, w: seq<bool>)
    requires |w| == 32
    ensures Num(a + w) == 0x1_0000_0000 * Num(a) + Num(w)
  {
    NumAppend(a, w);
    Pow2Facts();
    TimesWord(Num(a), Pow2(32));
  }

  lemma TimesWord(x: int, p: int)
    requires p == 0x1_0000_0000
    ensures x * p == 0x1_0000_0000 * x
  {
  }

  /** A renormalisation round always clears the FRUGAL_BITS flag, so the invariant carries through. */
  lemma StepClearsFlag(e: Encoder)
    requires CoderShape(e) && e.R <= Quarter
    ensures !RenormStep(e).ignoreFirstBit
  {
    if e.L >= Half || e.L + e.R <= Half {
      BitPlusFollowEmits(e, e.L >= Half);
    }
  }

  /** The committed bits after a round that emits b: the old ones, b, and the follow bits. */
  lemma EmitCommits(e: Encoder, b: bool)
    requires CoderShape(e) && e.R <= Quarter && FreshWhileFlagged(e)
    requires if b then e.L >= Half else e.L < Half && e.L + e.R <= Half
    ensures SinkValid(RenormStep(e))
    ensures Committed(RenormStep(e)) == Committed(e) + ([b] + Repeat(!b, e.outstanding))
    ensures RenormStep(e).outstanding == 0
  {
    if e.ignoreFirstBit {
      FlaggedCommits(e, b);
    } else {
      PlainCommits(e, b);
    }
  }

  /** The first emitted bit is dropped: it is the leading zero the stream starts with. */
  lemma FlaggedCommits(e: Encoder, b: bool)
    requires CoderShape(e) && e.R <= Quarter && FreshWhileFlagged(e) && e.ignoreFirstBit
    requires if b then e.L >= Half else e.L < Half && e.L + e.R <= Half
    ensures SinkValid(RenormStep(e))
    ensures Committed(RenormStep(e)) == Committed(e) + ([b] + Repeat(!b, e.outstanding))
    ensures RenormStep(e).outstanding == 0
  {
    IgnoredBitIsLeadingZero(e);
    assert Repeat(true, 0) == [];
  }

  lemma PlainCommits(e: Encoder, b: bool)
    requires CoderShape(e) && e.R <= Quarter && FreshWhileFlagged(e) && !e.ignoreFirstBit
    requires if b then e.L >= Half else e.L < Half && e.L + e.R <= Half
    ensures SinkValid(RenormStep(e))
    ensures Committed(RenormStep(e)) == Committed(e) + ([b] + Repeat(!b, e.outstanding))
    ensures RenormStep(e).outstanding == 0
  {
    var f := BitPlusFollowOf(e, b);
    BitPlusFollowEmits(e, b);
    PlainStepIs(e, b);
    SameSink(f, RenormStep(e));
    assert Committed(f) == [false] + (Emitted(e) + [b] + Repeat(!b, e.outstanding));
  }

  /** An emitting round is BIT_PLUS_FOLLOW with new ends. */
  lemma PlainStepIs(e: Encoder, b: bool)
    requires if b then e.L >= Half else e.L < Half && e.L + e.R <= Half
    ensures RenormStep(e) == BitPlusFollowOf(e, b).(L := RenormStep(e).L, R := 2 * e.R)
  {
  }

  /** The committed bits depend on the output side only. */
  lemma SameSink(f: Encoder, g: Encoder)
    requires SinkValid(f) && g == f.(L := g.L, R := g.R)
    ensures SinkValid(g) && Committed(g) == Committed(f) && g.outstanding == f.outstanding
  {
  }

  /** A round fixes one more bit of the stream, as a committed bit or a follow bit. */
  lemma StepTracks(e: Encoder, T: seq<bool>)
    requires CoderShape(e) && e.R <= Quarter && FreshWhileFlagged(e)
    requires Tracks(RenormStep(e), T)
    ensures Tracks(e, T) && Pos(RenormStep(e)) == Pos(e) + 1
  {
    var e1 := RenormStep(e);
    var C := Committed(e);
    if e.L >= Half || e.L + e.R <= Half {
      EmitCommits(e, e.L >= Half);
      var C1 := Committed(e1);
      assert T[..|C|] == C1[..|C|] == C;
    }
  }

  /**
   * One round of ENCODE_RENORMALISE moves the window one bit on and
   * doubles the offset, adding the bit that enters the window.
   */
  lemma StepOffset(e: Encoder, T: seq<bool>)
    requires CoderShape(e) && e.R <= Quarter && FreshWhileFlagged(e)
    requires Tracks(RenormStep(e), T)
    ensures Tracks(e, T) && Pos(RenormStep(e)) == Pos(e) + 1
    ensures Offset(RenormStep(e), T) == 2 * Offset(e, T) + Bit(T[Pos(e) + 32])
  {
    StepTracks(e, T);
    if e.L >= Half || e.L + e.R <= Half {
      StepEmits(e, T, e.L >= Half);
    } else {
      StepDefers(e, T);
    }
  }

  lemma StepDefers(e: Encoder, T: seq<bool>)
    requires CoderShape(e) && e.R <= Quarter && FreshWhileFlagged(e)
    requires e.L < Half < e.L + e.R
    requires Tracks(RenormStep(e), T) && Tracks(e, T) && Pos(e) + 33 <= |T|
    ensures Offset(RenormStep(e), T) == 2 * Offset(e, T) + Bit(T[Pos(e) + 32])
  {
    var e1 := RenormStep(e);
    DeferIs(e);
    var c, o := |Committed(e)|, e.outstanding;
    assert Offset(e1, T) == WindowOffset(T, c, o + 1, e1.L);
    DeferOffset(T, c, o, e.L);
  }

  /** A deferring round keeps the committed bits and owes one more follow bit. */
  lemma DeferIs(e: Encoder)
    requires FreshWhileFlagged(e) && 0 <= e.outstanding && e.L < Half < e.L + e.R
    ensures SinkValid(RenormStep(e)) && Committed(RenormStep(e)) == Committed(e)
    ensures RenormStep(e).outstanding == e.outstanding + 1 && RenormStep(e).L == 2 * (e.L - Quarter)
  {
  }

  lemma StepEmits(e: Encoder, T: seq<bool>, b: bool)
    requires CoderShape(e) && e.R <= Quarter && FreshWhileFlagged(e)
    requires if b then e.L >= Half else e.L < Half && e.L + e.R <= Half
    requires Tracks(RenormStep(e), T) && Tracks(e, T) && Pos(e) + 33 <= |T|
    ensures Offset(RenormStep(e), T) == 2 * Offset(e, T) + Bit(T[Pos(e) + 32])
  {
    var e1 := RenormStep(e);
    var c, o := |Committed(e)|, e.outstanding;
    EmitCommits(e, b);
    var C1 := Committed(e1);
    assert T[..|C1|] == C1;
    assert T[c..c + o + 1] == C1[c..] == [b] + Repeat(!b, o);
    EmitOffset(T, c, o, e.L, b);
    var L1 := if b then 2 * (e.L - Half) else 2 * e.L;
    assert |C1| == c + o + 1 && e1.outstanding == 0 && e1.L == L1;
    assert Offset(e1, T) == WindowOffset(T, c + o + 1, 0, L1);
  }

  /** A round that emits b and the follow bits moves them out of the window. */
  lemma EmitOffset(T: seq<bool>, c: nat, o: nat, L: int, b: bool)
    requires c + o + 33 <= |T| && T[c..c + o + 1] == [b] + Repeat(!b, o)
    ensures WindowOffset(T, c + o + 1, 0, if b then 2 * (L - Half) else 2 * L) ==
      2 * WindowOffset(T, c, o, L) + Bit(T[c + o + 32])
  {
    EmitWindow(T, c, o, b);
    EmitAlgebra(Num(T[c..c + o + 32]), Num(T[c + o + 1..c + o + 33]), Bit(T[c + o + 32]), Pow2(o), L, b);
  }

  /** A round that defers a bit widens the window by one follow bit. */
  lemma DeferOffset(T: seq<bool>, c: nat, o: nat, L: int)
    requires c + o + 33 <= |T|
    ensures WindowOffset(T, c, o + 1, 2 * (L - Quarter)) == 2 * WindowOffset(T, c, o, L) + Bit(T[c + o + 32])
  {
    NumSnoc(T, c, c + o + 32);
    assert Pow2(o + 1) == 2 * Pow2(o);
    DeferAlgebra(Num(T[c..c + o + 32]), Bit(T[c + o + 32]), Pow2(o), L);
  }

  lemma DeferAlgebra(w: int, bit: int, p: int, L: int)
    ensures (2 * w + bit) - 0x8000_0000 * (2 * p - 1) - 2 * (L - Quarter) == 2 * (w - 0x8000_0000 * (p - 1) - L) + bit
  {
  }

  lemma EmitAlgebra(w: int, w1: int, bit: int, p: int, L: int, b: bool)
    requires w1 == 2 * w + bit - 0x1_0000_0000 * (if b then p else p - 1)
    ensures w1 - (if b then 2 * (L - Half) else 2 * L) == 2 * (w - 0x8000_0000 * (p - 1) - L) + bit
  {
  }

  /** Renormalisation keeps the invariant that nothing is emitted while the flag is set. */
  lemma {:induction false} RenormaliseKeepsFresh(e: Encoder)
    requires CoderShape(e) && FreshWhileFlagged(e)
    ensures FreshWhileFlagged(EncodeRenormaliseOf(e))
    decreases Quarter - e.R
  {
    if e.R <= Quarter {
      RenormStepShape(e);
      StepClearsFlag(e);
      RenormaliseKeepsFresh(RenormStep(e));
    }
  }

  /**
   * Backwards through ENCODE_RENORMALISE: if the stream tracks the
   * renormalised encoder and its offset lies in the renormalised range,
   * it tracks the encoder before and its offset lies in that range.
   */
  lemma {:induction false} RenormaliseOffset(e: Encoder, T: seq<bool>)
    requires CoderShape(e) && FreshWhileFlagged(e)
    requires Tracks(EncodeRenormaliseOf(e), T)
    ensures Tracks(e, T)
    ensures 0 <= Offset(EncodeRenormaliseOf(e), T) < EncodeRenormaliseOf(e).R ==> 0 <= Offset(e, T) < e.R
    decreases Quarter - e.R
  {
    if e.R <= Quarter {
      var e1 := RenormStep(e);
      RenormStepShape(e);
      StepClearsFlag(e);
      RenormaliseOffset(e1, T);
      StepOffset(e, T);
    }
  }

  // ---------------------------------------------------------------------
  // The end of the message
  // ---------------------------------------------------------------------

  /**
   * The stream the decoder reads for a message whose last symbol left the
   * encoder at `en`: the leading 0 that was never written, the bytes of
   * finishEncode and doneOutputtingBits, and the 32 zero bits the input
   * supplies past its end.
   */
  function StreamOf(en: Encoder): seq<bool>
    requires en.R >= 1
  {
    [false] + BytesBits(DoneOutputtingBitsOf(FinishEncodeOf(en)).bytes) + Repeat(false, 32)
  }

  /**
   * The stream after the committed bits: what finishEncode emitted past
   * them, then doneOutputtingBits' padding and the 32 zero bits.
   */
  lemma StreamShape(T: seq<bool>, C: seq<bool>, Ef: seq<bool>, Out: seq<bool>, A: seq<bool>, B: seq<bool>, pad: nat)
    requires T == [false] + Out + Repeat(false, 32) && Out == Ef + Repeat(false, pad)
    requires [false] + Ef == C + A + B
    ensures C <= T && T[|C|..] == A + B + Repeat(false, pad + 32)
  {
    var Z := Repeat(false, pad + 32);
    assert Repeat(false, pad) + Repeat(false, 32) == Z;
    assert T == ([false] + Ef) + (Repeat(false, pad) + Repeat(false, 32));
    assert T == (C + A + B) + Z;
    assert T == C + (A + B + Z);
  }

  lemma RegroupPlain<T>(x: seq<T>, m: seq<T>, t: T, r: seq<T>, b: seq<T>)
    ensures x + (m + [t] + r + b) == (x + m) + ([t] + r) + b
  {
  }

  lemma RegroupFlag<T>(x: seq<T>, m: seq<T>, b: seq<T>)
    requires m == []
    ensures x + (m + b) == [] + x + b
  {
  }

  /** The number the final window spells: the resolved follow bits, and then finishEncode's value. */
  lemma FinalAlgebra(numAB: int, numA: int, p2o: int, top: bool, bits: int, P: int, S: int)
    requires P >= 1 && S >= 1 && P * S == 0x8000_0000 && 0 <= bits < 2 * P
    requires top == ((bits / P) % 2 == 1) && numA == if top then p2o else p2o - 1
    requires numAB == numA * P + bits % P
    ensures numAB * S == 0x8000_0000 * (p2o - 1) + bits * S
  {
    var q, m := bits / P, bits % P;
    assert bits == q * P + m;
    DivBelow(bits, P, 2);
    DivAbove(bits, P, 0);
    assert (numA * P + m) * S == numA * (P * S) + m * S;
    assert bits * S == q * (P * S) + m * S;
  }

  lemma NonNegativeFactor(x: int, s: int)
    requires s >= 1 && x * s >= 0
    ensures x >= 0
  {
  }

  lemma FactorBelow(x: int, y: int, s: int)
    requires s >= 1 && x * s < y * s
    ensures x < y
  {
  }

  /**
   * The window after the committed bits, when the stream goes on with a
   * bit, o opposite bits, the other c - 1 bits of `bits` and zeros: the
   * offset is finishEncode's value less L.
   */
  lemma FinalWindow(T: seq<bool>, k: nat, o: nat, c: nat, bits: int, pad: nat, L: int)
    requires 1 <= c <= 32 && 0 <= bits < 2 * Pow2(c - 1)
    requires k <= |T| && T[k..] == ([(bits / Pow2(c - 1)) % 2 == 1] + Repeat(!((bits / Pow2(c - 1)) % 2 == 1), o)) + BitsOf(bits, c - 1) + Repeat(false, pad + 32)
    ensures k + o + 32 <= |T| && WindowOffset(T, k, o, L) == bits * Pow2(32 - c) - L
  {
    var top := (bits / Pow2(c - 1)) % 2 == 1;
    var A, B, Z := [top] + Repeat(!top, o), BitsOf(bits, c - 1), Repeat(false, pad + 32);
    Pow2Add(c - 1, 32 - c);
    assert T[k..k + o + 32] == (A + B) + Z[..32 - c] by {
      assert T[k..k + o + 32] == T[k..][..o + 32];
    }
    FinalNum(o, c, bits, Z[..32 - c]);
  }

  /** The number the final window spells: the flushed bits, shifted up to 32 bits. */
  lemma FinalNum(o: nat, c: nat, bits: int, Z: seq<bool>)
    requires 1 <= c <= 32 && 0 <= bits < 2 * Pow2(c - 1)
    requires Z == Repeat(false, 32 - c)
    ensures var top := (bits / Pow2(c - 1)) % 2 == 1;
      Num(([top] + Repeat(!top, o)) + BitsOf(bits, c - 1) + Z) == 0x8000_0000 * (Pow2(o) - 1) + bits * Pow2(32 - c)
  {
    var top := (bits / Pow2(c - 1)) % 2 == 1;
    var A, B := [top] + Repeat(!top, o), BitsOf(bits, c - 1);
    var P, S := Pow2(c - 1), Pow2(32 - c);
    Pow2Add(c - 1, 32 - c);
    Pow2Facts();
    NumAppend(A + B, Z);
    NumZeros(Z);
    NumAppend(A, B);
    NumCons(top, Repeat(!top, o));
    NumRepeat(!top, o);
    NumBitsOf(bits, c - 1);
    FinalAlgebra(Num(A + B), Num(A), Pow2(o), top, bits, P, S);
  }

  /**
   * finishEncode emits the bits that pin the code value inside the final
   * interval: the stream tracks the last encoder, and its offset lies in
   * [0, R).
   */
  lemma FinalInside(e: Encoder)
    requires CoderShape(e) && FreshWhileFlagged(e)
    ensures Tracks(e, StreamOf(e)) && 0 <= Offset(e, StreamOf(e)) < e.R
  {
    var T := StreamOf(e);
    var c := FinishBitCount(e.L, e.R);
    var bits := FinishBits(e.L, c);
    var S := Pow2(32 - c);
    FinishEncodeEmits(e);
    var pad := FinishStream(e);
    Pow2Add(c - 1, 32 - c);
    Pow2Facts();
    assert Pow2(c - 1) * S == Half;
    NonNegativeFactor(bits, S);
    DoubleLeft(Pow2(c - 1), S);
    FactorBelow(bits, 2 * Pow2(c - 1), S);
    FinalWindow(T, |Committed(e)|, e.outstanding, c, bits, pad, e.L);
  }

  /** The stream of a finished message: the committed bits, then finishEncode's bits and zeros. */
  lemma FinishStream(e: Encoder) returns (pad: nat)
    requires CoderShape(e) && FreshWhileFlagged(e)
    ensures var c := FinishBitCount(e.L, e.R);
      var bits := FinishBits(e.L, c);
      var top := (bits / Pow2(c - 1)) % 2 == 1;
      Committed(e) <= StreamOf(e) &&
      StreamOf(e)[|Committed(e)|..] == ([top] + Repeat(!top, e.outstanding)) + BitsOf(bits, c - 1) + Repeat(false, pad + 32)
  {
    var T := StreamOf(e);
    var c := FinishBitCount(e.L, e.R);
    var bits := FinishBits(e.L, c);
    var top := (bits / Pow2(c - 1)) % 2 == 1;
    var f := FinishEncodeOf(e);
    FinishEncodeEmits(e);
    DoneOutputtingPads(f);
    pad := if f.bitsToGo == 8 then 0 else f.bitsToGo;
    var A, B := [top] + Repeat(!top, e.outstanding), BitsOf(bits, c - 1);
    if e.ignoreFirstBit {
      assert A == [false];
      RegroupFlag([false], Emitted(e), B);
    } else {
      RegroupPlain([false], Emitted(e), top, Repeat(!top, e.outstanding), B);
    }
    StreamShape(T, Committed(e), Emitted(f), BytesBits(DoneOutputtingBitsOf(f).bytes), A, B, pad);
  }

  lemma DoubleLeft(p: int, s: int)
    ensures (2 * p) * s == 2 * (p * s)
  {
  }

  /** startEncode's encoder has committed nothing, so its window is the first 32 bits of the stream. */
  lemma StartTracks(e: Encoder, T: seq<bool>)
    requires SinkValid(e) && Emitted(e) == [] && |T| >= 32
    ensures Tracks(StartEncodeOf(e), T) && Pos(StartEncodeOf(e)) == 0
    ensures Offset(StartEncodeOf(e), T) == Num(T[0..32]) && StartEncodeOf(e).R == Half
  {
    assert Committed(StartEncodeOf(e)) == [];
  }
}
