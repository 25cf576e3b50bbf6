/**
 * Order-2 Fibonacci (Zeckendorf) codes of positive integers, as used by Exalt
 * to write element and attribute ids into the symbol stream.
 *
 * A code is kept "reversed": bit j (counting from the least significant bit)
 * says whether the j-th table entry takes part in the sum, and one extra 1 is
 * placed above the most significant digit so that every code ends in "11".
 */
module Fibonacci {

  import opened Wrappers

  newtype byte = x: int | 0 <= x < 256

  /** Values of an `unsigned long` are below this bound (64 bits). */
  const ULongLimit: nat := 0x1_0000_0000_0000_0000

  function Pow2(k: nat): (r: nat)
    ensures r >= 1
  {
    if k == 0 then 1 else 2 * Pow2(k - 1)
  }

  // ---------------------------------------------------------------------
  // The table
  // ---------------------------------------------------------------------

  /** Fibonacci numbers of order 2 with the first 1 omitted. */
  function Fib(i: nat): nat
  {
    FibPair(i).0
  }

  /** Fib(i) and Fib(i + 1), computed upwards. */
  function FibPair(i: nat): (nat, nat)
  {
    if i == 0 then (1, 2) else var p := FibPair(i - 1); (p.1, p.0 + p.1)
  }

  /** The order-2 recurrence: each entry after the first two is the sum of the two before it. */
  lemma FibRec(i: nat)
    ensures Fib(i) == if i == 0 then 1 else if i == 1 then 2 else Fib(i - 1) + Fib(i - 2)
  {
    if i >= 2 {
      assert FibPair(i - 1).1 == Fib(i);
    }
  }

  /** NUMBER_OF_ORDER2_FIBS */
  const FibCount: nat := 44

  /** Order2FibonacciNumbers_ */
  const FibTable: seq<nat> :=
    [1, 2, 3, 5]
    + [8, 13, 21, 34, 55]
    + [89, 144, 233, 377, 610]
    + [987, 1597, 2584, 4181, 6765]
    + [10946, 17711, 28657, 46368, 75025]
    + [121393, 196418, 317811, 514229, 832040]
    + [1346269, 2178309, 3524578, 5702887, 9227465]
    + [14930352, 24157817, 39088169, 63245986, 102334155]
    + [165580141, 267914296, 433494437, 701408733, 1134903170]

  /** The first number the table cannot write as a sum of non-adjacent entries. */
  const FibLimit: nat := 1836311903

  /** Entry i of the literal table is the sum of the two before it. */
  lemma TableAt(i: nat)
    requires 2 <= i < FibCount
    ensures FibTable[i] == FibTable[i - 1] + FibTable[i - 2]
  {
    if i < 5 {
      TableAt2To4(i);
    } else if i < 8 {
      TableAt5To7(i);
    } else if i < 11 {
      TableAt8To10(i);
    } else if i < 14 {
      TableAt11To13(i);
    } else if i < 18 {
      TableAt14To17(i);
    } else if i < 23 {
      TableAt18To22(i);
    } else if i < 30 {
      TableAt23To29(i);
    } else {
      TableAt30To43(i);
    }
  }

  lemma TableAt2To4(i: nat)
    requires 2 <= i < 5
    ensures FibTable[i] == FibTable[i - 1] + FibTable[i - 2]
  {
    if i == 2 {
      assert FibTable[2] == 3 && FibTable[1] == 2 && FibTable[0] == 1;
    } else if i == 3 {
      assert FibTable[3] == 5 && FibTable[2] == 3 && FibTable[1] == 2;
    } else {
      assert FibTable[4] == 8 && FibTable[3] == 5 && FibTable[2] == 3;
    }
  }

  lemma TableAt5To7(i: nat)
    requires 5 <= i < 8
    ensures FibTable[i] == FibTable[i - 1] + FibTable[i - 2]
  {
    assert i == 5 || i == 6 || i == 7;
  }

  lemma TableAt8To10(i: nat)
    requires 8 <= i < 11
    ensures FibTable[i] == FibTable[i - 1] + FibTable[i - 2]
  {
    assert i == 8 || i == 9 || i == 10;
  }

  lemma TableAt11To13(i: nat)
    requires 11 <= i < 14
    ensures FibTable[i] == FibTable[i - 1] + FibTable[i - 2]
  {
    assert i == 11 || i == 12 || i == 13;
  }

  lemma TableAt14To17(i: nat)
    requires 14 <= i < 18
    ensures FibTable[i] == FibTable[i - 1] + FibTable[i - 2]
  {
    assert i == 14 || i == 15 || i == 16 || i == 17;
  }

  lemma TableAt18To22(i: nat)
    requires 18 <= i < 23
    ensures FibTable[i] == FibTable[i - 1] + FibTable[i - 2]
  {
    assert i == 18 || i == 19 || i == 20 || i == 21 || i == 22;
  }

  lemma TableAt23To29(i: nat)
    requires 23 <= i < 30
    ensures FibTable[i] == FibTable[i - 1] + FibTable[i - 2]
  {
    assert i == 23 || i == 24 || i == 25 || i == 26 || i == 27 || i == 28 || i == 29;
  }

  lemma TableAt30To43(i: nat)
    requires 30 <= i < 44
    ensures FibTable[i] == FibTable[i - 1] + FibTable[i - 2]
  {
    assert i == 30 || i == 31 || i == 32 || i == 33 || i == 34 || i == 35 || i == 36 || i == 37
        || i == 38 || i == 39 || i == 40 || i == 41 || i == 42 || i == 43;
  }

  lemma TableStart()
    ensures |FibTable| >= 2 && FibTable[0] == 1 && FibTable[1] == 2
  {
  }

  /** The literal table holds exactly the order-2 Fibonacci numbers. */
  lemma TableIsFib(i: nat)
    requires i < FibCount
    ensures FibTable[i] == Fib(i)
  {
    TableStart();
    forall j | 2 <= j < |FibTable|
      ensures FibTable[j] == FibTable[j - 1] + FibTable[j - 2]
    {
      TableAt(j);
    }
    RecurrenceGivesFib(FibTable, i);
  }

  /** Any list that starts 1, 2 and follows the order-2 recurrence lists Fib(0), Fib(1), ... */
  lemma {:induction false} RecurrenceGivesFib(t: seq<nat>, i: nat)
    requires i < |t| && t[0] == 1 && (|t| > 1 ==> t[1] == 2)
    requires forall j :: 2 <= j < |t| ==> t[j] == t[j - 1] + t[j - 2]
    ensures t[i] == Fib(i)
  {
    FibRec(i);
    if i >= 2 {
      RecurrenceGivesFib(t, i - 1);
      RecurrenceGivesFib(t, i - 2);
    }
  }

  /** Order2FibonacciNumbers_[i]. */
  method TableEntry(i: nat) returns (f: nat)
    requires i < FibCount
    ensures f == Fib(i)
  {
    f := FibTable[i];
    TableIsFib(i);
  }

  lemma FibLimitIsNext()
    ensures Fib(FibCount) == FibLimit
  {
    TableIsFib(43);
    TableIsFib(42);
    FibRec(FibCount);
  }

  lemma {:induction false} FibGrows(i: nat, k: nat)
    requires i <= k
    ensures Fib(i) <= Fib(k)
  {
    if i < k {
      FibGrows(i, k - 1);
    }
  }

  // ---------------------------------------------------------------------
  // Bit lists, least significant bit first
  // ---------------------------------------------------------------------

  /** The number whose binary digits, least significant first, are s. */
  function Val(s: seq<bool>): nat
  {
    if s == [] then 0 else (if s[0] then 1 else 0) + 2 * Val(s[1..])
  }

  /** The binary digits of c, least significant first, without leading zeros. */
  function Bits(c: nat): seq<bool>
  {
    if c == 0 then [] else [c % 2 == 1] + Bits(c / 2)
  }

  lemma {:induction false} ValAppend(a: seq<bool>, b: seq<bool>)
    ensures Val(a + b) == Val(a) + Pow2(|a|) * Val(b)
  {
    if a != [] {
      var a' := a[1..];
      assert (a + b)[1..] == a' + b;
      ValAppend(a', b);
      var h := if a[0] then 1 else 0;
      var pv := Pow2(|a'|) * Val(b);
      assert Val(a + b) == h + 2 * Val(a' + b);
      assert Val(a' + b) == Val(a') + pv;
      DoubleMul(Pow2(|a'|), Val(b));
      assert Pow2(|a|) * Val(b) == 2 * pv;
    } else {
      assert a + b == b;
    }
  }

  lemma DoubleMul(p: nat, v: nat)
    ensures (2 * p) * v == 2 * (p * v)
  {
  }

  lemma {:induction false} ValBound(s: seq<bool>)
    ensures Val(s) < Pow2(|s|)
  {
    if s != [] {
      ValBound(s[1..]);
    }
  }

  /** A digit list without leading zeros is recovered from its value. */
  lemma {:induction false} BitsOfVal(s: seq<bool>)
    requires s == [] || s[|s| - 1]
    ensures Bits(Val(s)) == s
  {
    if s != [] {
      if |s| == 1 {
        assert s == [true];
      } else {
        BitsOfVal(s[1..]);
        assert Val(s[1..]) != 0;
        assert s == [s[0]] + s[1..];
      }
    }
  }

  // ---------------------------------------------------------------------
  // Zeckendorf digits and the encoder
  // ---------------------------------------------------------------------

  /** The greedy digits of n over Fib(0) .. Fib(k-1); entry j is the digit of Fib(j). */
  function Zeck(n: nat, k: nat): (s: seq<bool>)
    ensures |s| == k
  {
    if k == 0 then []
    else if Fib(k - 1) <= n then Zeck(n - Fib(k - 1), k - 1) + [true]
    else Zeck(n, k - 1) + [false]
  }

  /** One more than the index of the largest of Fib(0) .. Fib(k-1) that is at most n; 0 if none is. */
  function ZeckLen(n: nat, k: nat): (h: nat)
    ensures h <= k
  {
    if k == 0 then 0 else if Fib(k - 1) <= n then k else ZeckLen(n, k - 1)
  }

  /** The Zeckendorf digits the encoder emits for n, without leading zeros. */
  function Digits(n: nat): seq<bool>
  {
    DigitsBelow(n, FibCount)
  }

  /** The greedy digits of n over the first k table entries, leading zeros dropped. */
  function DigitsBelow(n: nat, k: nat): seq<bool>
  {
    Zeck(n, ZeckLen(n, k))
  }

  /** No two adjacent ones, the bit before the list being `last`. */
  predicate NoAdjacentOnes(s: seq<bool>, last: bool)
  {
    s == [] || (!(last && s[0]) && NoAdjacentOnes(s[1..], s[0]))
  }

  function LastBit(s: seq<bool>, last: bool): bool
  {
    if s == [] then last else s[|s| - 1]
  }

  /** Sum of Fib(j + i) over the positions i of s that hold a one. */
  function FibSum(s: seq<bool>, j: nat): nat
  {
    if s == [] then 0 else (if s[0] then Fib(j) else 0) + FibSum(s[1..], j + 1)
  }

  lemma {:induction false} FibSumSnoc(s: seq<bool>, b: bool, j: nat)
    ensures FibSum(s + [b], j) == FibSum(s, j) + (if b then Fib(j + |s|) else 0)
  {
    if s == [] {
      assert s + [b] == [b];
    } else {
      assert (s + [b])[1..] == s[1..] + [b];
      FibSumSnoc(s[1..], b, j + 1);
    }
  }

  lemma {:induction false} NoAdjacentSnoc(s: seq<bool>, b: bool, last: bool)
    ensures NoAdjacentOnes(s + [b], last) == (NoAdjacentOnes(s, last) && !(b && LastBit(s, last)))
  {
    if s == [] {
      assert s + [b] == [b];
      assert [b][1..] == [];
    } else {
      assert (s + [b])[1..] == s[1..] + [b];
      NoAdjacentSnoc(s[1..], b, s[0]);
    }
  }

  /**
   * Below Fib(k) the greedy choice gives a Zeckendorf representation: the
   * chosen numbers sum to n and no two of them are adjacent in the table.
   */
  lemma {:induction false} ZeckIsRepresentation(n: nat, k: nat)
    requires n < Fib(k)
    ensures NoAdjacentOnes(Zeck(n, k), false)
    ensures FibSum(Zeck(n, k), 0) == n
  {
    if k == 0 {
    } else if Fib(k - 1) <= n {
      var r := n - Fib(k - 1);
      if k == 1 {
        assert Zeck(n, k) == [true];
      } else {
        assert r < Fib(k - 2);
        var z := Zeck(r, k - 2);
        assert Zeck(r, k - 1) == z + [false];
        ZeckIsRepresentation(r, k - 2);
        NoAdjacentSnoc(z, false, false);
        NoAdjacentSnoc(z + [false], true, false);
        FibSumSnoc(z, false, 0);
        FibSumSnoc(z + [false], true, 0);
      }
    } else {
      ZeckIsRepresentation(n, k - 1);
      NoAdjacentSnoc(Zeck(n, k - 1), false, false);
      FibSumSnoc(Zeck(n, k - 1), false, 0);
    }
  }

  lemma {:induction false} ZeckLenFacts(n: nat, k: nat)
    requires n < Fib(k)
    ensures n < Fib(ZeckLen(n, k))
    ensures 1 <= n && 1 <= k ==> 1 <= ZeckLen(n, k) && Fib(ZeckLen(n, k) - 1) <= n
  {
    if k > 0 && Fib(k - 1) > n {
      ZeckLenFacts(n, k - 1);
    }
  }

  /**
   * For n >= 1 below FibLimit, the digits are a Zeckendorf representation
   * whose most significant digit is a one: the code ends in "11".
   */
  lemma DigitsAreZeckendorf(n: nat)
    requires 1 <= n < FibLimit
    ensures 1 <= |Digits(n)| <= FibCount
    ensures LastBit(Digits(n), false)
    ensures NoAdjacentOnes(Digits(n), false)
    ensures FibSum(Digits(n), 0) == n
  {
    FibLimitIsNext();
    ZeckendorfDigits(n, FibCount);
  }

  /** The greedy digits of n below Fib(k), leading zeros dropped. */
  lemma ZeckendorfDigits(n: nat, k: nat)
    requires 1 <= n < Fib(k)
    ensures 1 <= |DigitsBelow(n, k)| <= k
    ensures LastBit(DigitsBelow(n, k), false)
    ensures NoAdjacentOnes(DigitsBelow(n, k), false)
    ensures FibSum(DigitsBelow(n, k), 0) == n
  {
    ZeckLenFacts(n, k);
    ZeckIsRepresentation(n, ZeckLen(n, k));
  }

  /** The state of the encoder's loop with k table entries still to look at. */
  function EncodeLoop(n: nat, k: nat, code: nat): nat
  {
    if k == 0 then code
    else if Fib(k - 1) <= n then EncodeLoop(n - Fib(k - 1), k - 1, 2 * code + 1)
    else if code > 1 then EncodeLoop(n, k - 1, 2 * code)
    else EncodeLoop(n, k - 1, code)
  }

  lemma {:induction false} EncodeLoopShifts(n: nat, k: nat, code: nat)
    requires code >= 2
    ensures EncodeLoop(n, k, code) == Val(Zeck(n, k)) + code * Pow2(k)
  {
    if k > 0 {
      var p := Pow2(k - 1);
      if Fib(k - 1) <= n {
        var z := Zeck(n - Fib(k - 1), k - 1);
        calc {
          EncodeLoop(n, k, code);
          EncodeLoop(n - Fib(k - 1), k - 1, 2 * code + 1);
          { EncodeLoopShifts(n - Fib(k - 1), k - 1, 2 * code + 1); }
          Val(z) + (2 * code + 1) * p;
          { ShiftArith(Val(z), p, code, 1); }
          Val(z) + p * 1 + code * Pow2(k);
          { ValAppend(z, [true]); assert Val([true]) == 1; }
          Val(z + [true]) + code * Pow2(k);
        }
      } else {
        var z := Zeck(n, k - 1);
        calc {
          EncodeLoop(n, k, code);
          EncodeLoop(n, k - 1, 2 * code);
          { EncodeLoopShifts(n, k - 1, 2 * code); }
          Val(z) + (2 * code + 0) * p;
          { ShiftArith(Val(z), p, code, 0); }
          Val(z) + p * 0 + code * Pow2(k);
          { ValAppend(z, [false]); assert Val([false]) == 0; }
          Val(z + [false]) + code * Pow2(k);
        }
      }
    }
  }

  lemma ValThree()
    ensures Val([true, true]) == 3
  {
    assert [true, true][1..] == [true];
    assert [true][1..] == [];
  }

  lemma ShiftArith(v: nat, p: nat, code: nat, b: nat)
    ensures v + (2 * code + b) * p == v + p * b + code * (2 * p)
  {
  }

  lemma {:induction false} EncodeLoopStarts(n: nat, k: nat)
    ensures EncodeLoop(n, k, 1) == Val(Zeck(n, ZeckLen(n, k)) + [true])
  {
    if k == 0 {
      assert Val([true]) == 1;
    } else if Fib(k - 1) <= n {
      var z := Zeck(n - Fib(k - 1), k - 1);
      assert ZeckLen(n, k) == k;
      assert Zeck(n, k) + [true] == z + [true, true];
      calc {
        EncodeLoop(n, k, 1);
        EncodeLoop(n - Fib(k - 1), k - 1, 3);
        { EncodeLoopShifts(n - Fib(k - 1), k - 1, 3); }
        Val(z) + 3 * Pow2(k - 1);
        { ValAppend(z, [true, true]); ValThree(); }
        Val(z + [true, true]);
      }
    } else {
      EncodeLoopStarts(n, k - 1);
    }
  }

  /**
   * Fibonacci::encode: greedy over the table from the largest entry down;
   * the result is the Zeckendorf digits of `number` with one extra 1 above
   * them (45 bits at most, so the shifts never leave an unsigned long).
   */
  method Encode(number: nat) returns (code: nat)
    requires number < ULongLimit
    ensures code == Val(Digits(number) + [true])
    ensures code < Pow2(FibCount + 1)
  {
    var i: int := FibCount - 1;
    var n := number;
    code := 1;
    while i > -1
      invariant -1 <= i < FibCount
      invariant EncodeLoop(n, i + 1, code) == EncodeLoop(number, FibCount, 1)
      invariant 1 <= code < Pow2(FibCount - i)
    {
      n, code := EncodeStep(n, code, i + 1);
      i := i - 1;
    }
    assert EncodeLoop(n, 0, code) == code;
    EncodeLoopStarts(number, FibCount);
  }

  /** One pass of encode's loop, at table entry k - 1. */
  method EncodeStep(n: nat, code: nat, k: nat) returns (n': nat, code': nat)
    requires 1 <= k <= FibCount && 1 <= code < Pow2(FibCount - k + 1)
    ensures EncodeLoop(n', k - 1, code') == EncodeLoop(n, k, code)
    ensures 1 <= code' < Pow2(FibCount - k + 2)
  {
    var fn := TableEntry(k - 1);
    Pow2Next(FibCount - k + 1);
    n', code' := n, code;
    if fn <= n {
      n' := n - fn;
      code' := code * 2 + 1;
    } else if code > 1 {
      code' := code * 2;
    }
  }

  lemma Pow2Next(k: nat)
    ensures Pow2(k + 1) == 2 * Pow2(k)
  {
  }

  /** The code encode gives for n. */
  function EncodedCode(n: nat): nat
  {
    Val(Digits(n) + [true])
  }

  // ---------------------------------------------------------------------
  // The decoder
  // ---------------------------------------------------------------------

  function AddTo(o: Option<nat>, x: nat): Option<nat>
  {
    match o
    case None => None
    case Some(m) => Some(m + x)
  }

  /**
   * What Fibonacci::decode computes from code c when the next bit is the
   * digit of table entry j: entries of one bits are added from the least
   * significant bit up, and the first pair of adjacent ones ends the code.
   * None when a one would be looked up past the end of the table.
   */
  function DecodeFrom(c: nat, j: nat, lastWasOne: bool): Option<nat>
    decreases c
  {
    if c == 0 then Some(0)
    else if c % 2 == 1 then
      if lastWasOne then Some(0)
      else if j >= FibCount then None
      else AddTo(DecodeFrom(c / 2, j + 1, true), Fib(j))
    else DecodeFrom(c / 2, j + 1, false)
  }

  /** The same reading over a digit list. */
  function DecodeBits(s: seq<bool>, j: nat, lastWasOne: bool): Option<nat>
  {
    if s == [] then Some(0)
    else if s[0] then
      if lastWasOne then Some(0)
      else if j >= FibCount then None
      else AddTo(DecodeBits(s[1..], j + 1, true), Fib(j))
    else DecodeBits(s[1..], j + 1, false)
  }

  lemma {:induction false} DecodeOfVal(s: seq<bool>, j: nat, last: bool)
    ensures DecodeFrom(Val(s), j, last) == DecodeBits(s, j, last)
  {
    if s != [] {
      DecodeOfVal(s[1..], j + 1, s[0]);
      DecodeOfVal(s[1..], j + 1, false);
    }
  }

  /**
   * Reading a stretch without adjacent ones adds the Fibonacci numbers of
   * its one bits and then goes on with the rest of the code.
   */
  lemma {:induction false} DecodeSplits(a: seq<bool>, t: seq<bool>, j: nat, last: bool)
    requires NoAdjacentOnes(a, last)
    requires j + |a| <= FibCount
    ensures DecodeBits(a + t, j, last) == AddTo(DecodeBits(t, j + |a|, LastBit(a, last)), FibSum(a, j))
  {
    if a == [] {
      assert a + t == t;
      match DecodeBits(t, j, last) {
        case None =>
        case Some(m) =>
      }
    } else {
      assert (a + t)[1..] == a[1..] + t;
      DecodeSplits(a[1..], t, j + 1, a[0]);
      assert LastBit(a[1..], a[0]) == LastBit(a, last);
      match DecodeBits(t, j + |a|, LastBit(a, last)) {
        case None =>
        case Some(m) =>
      }
    }
  }

  /** decode(encode(n)) == n for every n the table can represent. */
  lemma RoundTrip(n: nat)
    requires 1 <= n < FibLimit
    ensures DecodeFrom(EncodedCode(n), 0, false) == Some(n)
  {
    var d := Digits(n);
    DigitsAreZeckendorf(n);
    calc {
      DecodeFrom(EncodedCode(n), 0, false);
      DecodeFrom(Val(d + [true]), 0, false);
      { DecodeOfVal(d + [true], 0, false); }
      DecodeBits(d + [true], 0, false);
      { DecodeSplits(d, [true], 0, false); }
      AddTo(DecodeBits([true], |d|, LastBit(d, false)), FibSum(d, 0));
      AddTo(DecodeBits([true], |d|, true), n);
      { assert DecodeBits([true], |d|, true) == Some(0); }
      Some(n);
    }
  }

  /** Zero is outside the domain: it is encoded as the bare terminator 1, which decodes to 1. */
  lemma EncodeZero()
    ensures EncodedCode(0) == 1
    ensures DecodeFrom(1, 0, false) == Some(1)
  {
    ZeckLenOfZero(FibCount);
    assert Digits(0) + [true] == [true];
    assert Val([true]) == 1;
  }

  lemma {:induction false} ZeckLenOfZero(k: nat)
    ensures ZeckLen(0, k) == 0
  {
    if k > 0 {
      ZeckLenOfZero(k - 1);
    }
  }

  /** Fibonacci::decode, for a code whose reading stays inside the table. */
  method Decode(code: nat) returns (number: nat)
    requires code < ULongLimit
    requires DecodeFrom(code, 0, false).Some?
    ensures DecodeFrom(code, 0, false) == Some(number)
  {
    number := 0;
    var c := code;
    var i: nat := 0;
    var lastWasOne := false;
    while c != 0
      invariant DecodeFrom(code, 0, false) == AddTo(DecodeFrom(c, i, lastWasOne), number)
      decreases c
    {
      if c % 2 == 1 {
        if !lastWasOne {
          var f := TableEntry(i);
          number := number + f;
          lastWasOne := true;
        } else {
          return;
        }
      } else {
        lastWasOne := false;
      }
      c := c / 2;
      i := i + 1;
    }
  }

  // ---------------------------------------------------------------------
  // Byte buffers
  // ---------------------------------------------------------------------

  /** The value of bits read most significant first. */
  function MsbValue(g: seq<bool>): nat
  {
    if g == [] then 0 else 2 * MsbValue(g[..|g| - 1]) + (if g[|g| - 1] then 1 else 0)
  }

  function Zeros(k: nat): seq<bool>
  {
    seq(k, _ => false)
  }

  lemma {:induction false} MsbValueBound(g: seq<bool>)
    ensures MsbValue(g) < Pow2(|g|)
  {
    if g != [] {
      MsbValueBound(g[..|g| - 1]);
    }
  }

  lemma EightBits()
    ensures Pow2(8) == 256
  {
  }

  /** The byte holding the eight bits of g, g[0] in the most significant bit. */
  function ByteOf(g: seq<bool>): byte
    requires |g| == 8
  {
    MsbValueBound(g);
    EightBits();
    MsbValue(g) as byte
  }

  /**
   * The bytes encodeToBuffer stores for a bit stream: groups of eight bits,
   * the first bit of a group in the byte's top bit, and a last partial group
   * left-aligned with zero bits.
   */
  function PackBits(bits: seq<bool>): seq<byte>
    decreases |bits|
  {
    if bits == [] then []
    else if |bits| < 8 then [ByteOf(bits + Zeros(8 - |bits|))]
    else [ByteOf(bits[..8])] + PackBits(bits[8..])
  }

  /** The bits of a byte, most significant first. */
  function ByteBits(b: byte): (g: seq<bool>)
    ensures |g| == 8
  {
    seq(8, i requires 0 <= i < 8 => (b as int / Pow2(7 - i)) % 2 == 1)
  }

  /** The bit stream of a byte buffer as decodeFromBuffer walks it. */
  function StreamBits(bytes: seq<byte>): (bits: seq<bool>)
    ensures |bits| == 8 * |bytes|
  {
    if bytes == [] then [] else ByteBits(bytes[0]) + StreamBits(bytes[1..])
  }

  /** The smallest multiple of s that is at least x. */
  function RoundUp(x: nat, s: nat): (r: nat)
    requires s >= 1
  {
    x + (s - x % s) % s
  }

  /** What encodeToBuffer stores for `number`, padded to whole items of `itemSize` bytes. */
  function EncodedBuffer(number: nat, itemSize: nat): (bytes: seq<byte>)
    requires itemSize >= 1
  {
    CodeBuffer(EncodedCode(number), itemSize)
  }

  /** The bytes stored for a finished code word: its packed bits, then zero padding. */
  function CodeBuffer(code: nat, itemSize: nat): (bytes: seq<byte>)
    requires itemSize >= 1
  {
    var packed := PackBits(Bits(code));
    packed + seq(RoundUp(|packed|, itemSize) - |packed|, _ => 0 as byte)
  }

  lemma {:induction false} PackBitsLength(bits: seq<bool>)
    ensures |PackBits(bits)| == (|bits| + 7) / 8
    decreases |bits|
  {
    if |bits| >= 8 {
      PackBitsLength(bits[8..]);
    }
  }

  lemma {:induction false} PackBitsAppend(a: seq<bool>, b: seq<bool>)
    requires |a| % 8 == 0
    ensures PackBits(a + b) == PackBits(a) + PackBits(b)
    decreases |a|
  {
    if a == [] {
      assert a + b == b;
    } else {
      assert (a + b)[..8] == a[..8];
      assert (a + b)[8..] == a[8..] + b;
      PackBitsAppend(a[8..], b);
    }
  }

  lemma {:induction false} MulAtLeast(d: nat, t: nat)
    requires t >= 1
    ensures d * t >= d
  {
    if t > 1 {
      MulAtLeast(d, t - 1);
      assert d * t == d * (t - 1) + d;
    }
  }

  lemma DivUnique(x: nat, d: nat, q: nat, r: nat)
    requires d >= 1 && r < d && x == d * q + r
    ensures x / d == q && x % d == r
  {
    var q0, r0 := x / d, x % d;
    assert x == d * q0 + r0;
    if q0 > q {
      assert d * q0 == d * q + d * (q0 - q);
      MulAtLeast(d, q0 - q);
    } else if q0 < q {
      assert d * q == d * q0 + d * (q - q0);
      MulAtLeast(d, q - q0);
    }
  }

  lemma DivDouble(m: nat, q: nat, b: nat)
    requires q >= 1 && b < 2
    ensures (2 * m + b) / (2 * q) == m / q
  {
    var a, r := m / q, m % q;
    assert m == q * a + r;
    assert 2 * m + b == (2 * q) * a + (2 * r + b);
    DivUnique(2 * m + b, 2 * q, a, 2 * r + b);
  }

  /** Bit t of g, counted from the most significant end, is g[t]. */
  lemma {:induction false} MsbValueBit(g: seq<bool>, t: nat)
    requires t < |g|
    ensures (MsbValue(g) / Pow2(|g| - 1 - t)) % 2 == (if g[t] then 1 else 0)
    decreases |g|
  {
    var h := g[..|g| - 1];
    var b := if g[|g| - 1] then 1 else 0;
    var m := MsbValue(h);
    assert MsbValue(g) == 2 * m + b;
    if t == |g| - 1 {
      DivUnique(2 * m + b, 2, m, b);
      DivUnique(2 * m + b, 1, 2 * m + b, 0);
    } else {
      var q := Pow2(|h| - 1 - t);
      assert Pow2(|g| - 1 - t) == 2 * q;
      DivDouble(m, q, b);
      MsbValueBit(h, t);
      assert h[t] == g[t];
    }
  }

  lemma ByteBitsOf(g: seq<bool>)
    requires |g| == 8
    ensures ByteBits(ByteOf(g)) == g
  {
    forall t | 0 <= t < 8
      ensures ByteBits(ByteOf(g))[t] == g[t]
    {
      MsbValueBit(g, t);
    }
  }

  /** Reading back what encodeToBuffer packed gives the bits and then the padding zeros. */
  lemma {:induction false} StreamOfPacked(bits: seq<bool>)
    ensures |bits| <= |StreamBits(PackBits(bits))| < |bits| + 8
    ensures StreamBits(PackBits(bits)) == bits + Zeros(|StreamBits(PackBits(bits))| - |bits|)
    decreases |bits|
  {
    PackBitsLength(bits);
    if bits == [] {
    } else if |bits| < 8 {
      var g := bits + Zeros(8 - |bits|);
      ByteBitsOf(g);
      assert StreamBits(PackBits(bits)) == ByteBits(ByteOf(g)) + [];
    } else {
      StreamOfPacked(bits[8..]);
      ByteBitsOf(bits[..8]);
      var rest := StreamBits(PackBits(bits[8..]));
      assert StreamBits(PackBits(bits)) == bits[..8] + rest;
      assert bits == bits[..8] + bits[8..];
    }
  }

  lemma {:induction false} StreamBitsAt(bytes: seq<byte>, c: nat, t: nat)
    requires c < |bytes| && t < 8
    ensures StreamBits(bytes)[8 * c + t] == ByteBits(bytes[c])[t]
  {
    if c > 0 {
      StreamBitsAt(bytes[1..], c - 1, t);
    }
  }

  lemma {:induction false} StreamBitsAppend(a: seq<byte>, b: seq<byte>)
    ensures StreamBits(a + b) == StreamBits(a) + StreamBits(b)
  {
    if a != [] {
      assert (a + b)[1..] == a[1..] + b;
      StreamBitsAppend(a[1..], b);
    } else {
      assert a + b == b;
    }
  }

  /**
   * Fibonacci::encodeToBuffer: the code's bits are sent least significant
   * first into bytes filled from their most significant bit; the last partial
   * byte is left-aligned, zero bytes pad the output to whole items, and the
   * result is the number of items written.
   */
  method EncodeToBuffer(buffer: array<byte>, itemSize: nat, number: nat) returns (items: nat)
    requires itemSize >= 1 && number < ULongLimit
    requires |EncodedBuffer(number, itemSize)| <= buffer.Length
    modifies buffer
    ensures buffer[..|EncodedBuffer(number, itemSize)|] == EncodedBuffer(number, itemSize)
    ensures buffer[|EncodedBuffer(number, itemSize)|..] == old(buffer[|EncodedBuffer(number, itemSize)|..])
    ensures items * itemSize == |EncodedBuffer(number, itemSize)|
  {
    var code := Encode(number);
    EncodedCodeNonZero(number);
    items := WriteCode(buffer, code, itemSize);
  }

  /** Packs a code word into the buffer and pads it to whole items. */
  method WriteCode(buffer: array<byte>, code: nat, itemSize: nat) returns (items: nat)
    requires itemSize >= 1 && code != 0 && |CodeBuffer(code, itemSize)| <= buffer.Length
    modifies buffer
    ensures buffer[..|CodeBuffer(code, itemSize)|] == CodeBuffer(code, itemSize)
    ensures buffer[|CodeBuffer(code, itemSize)|..] == old(buffer[|CodeBuffer(code, itemSize)|..])
    ensures items * itemSize == |CodeBuffer(code, itemSize)|
  {
    ghost var out := CodeBuffer(code, itemSize);
    ghost var packed := PackBits(Bits(code));
    RoundUpIsMultiple(|packed|, itemSize);
    var charsTotal := PackCode(buffer, code, |out|);
    charsTotal := PadToItems(buffer, charsTotal, itemSize, out);
    items := charsTotal / itemSize;
  }

  /** Every code word ends in the stop bit, so it is never zero. */
  lemma EncodedCodeNonZero(n: nat)
    ensures EncodedCode(n) >= 1
  {
    EndsInOne(Digits(n));
  }

  lemma EndsInOne(s: seq<bool>)
    ensures Val(s + [true]) >= 1
  {
    ValAppend(s, [true]);
    assert Val([true]) == 1 by {
      assert [true][1..] == [];
    }
  }

  lemma MsbSnoc(g: seq<bool>, b: bool)
    ensures MsbValue(g + [b]) == 2 * MsbValue(g) + (if b then 1 else 0)
  {
    assert (g + [b])[..|g|] == g;
  }

  /**
   * The first part of encodeToBuffer: the bits of `code`, least significant
   * first, packed into bytes from their most significant bit, the last
   * partial byte left-aligned. Returns the number of bytes stored.
   */
  method PackCode(buffer: array<byte>, code: nat, ghost limit: nat) returns (count: nat)
    requires code != 0 && |PackBits(Bits(code))| <= limit <= buffer.Length
    modifies buffer
    ensures count == |PackBits(Bits(code))|
    ensures buffer[..count] == PackBits(Bits(code))
    ensures buffer[limit..] == old(buffer[limit..])
  {
    ghost var stream := Bits(code);
    PackBitsLength(stream);
    ghost var total := |PackBits(stream)|;
    assert |stream| <= 8 * total;
    var c := code;
    var tmpChar: nat := 0;
    var bits: nat := 0;
    var charsTotal: int := 0;
    ghost var whole: seq<bool> := [];
    ghost var group: seq<bool> := [];
    while c != 0
      invariant stream == whole + group + Bits(c)
      invariant 0 <= charsTotal && |whole| == 8 * charsTotal && |group| == bits < 8
      invariant tmpChar == MsbValue(group)
      invariant buffer[..charsTotal] == PackBits(whole)
      invariant buffer[limit..] == old(buffer[limit..])
      decreases c
    {
      NextBit(whole + group, c);
      tmpChar, bits, charsTotal, whole, group :=
        PushBit(buffer, c % 2 == 1, tmpChar, bits, charsTotal, whole, group, total, limit);
      c := c / 2;
    }
    assert stream == whole + group;
    WholeBytes(charsTotal);
    PackBitsAppend(whole, group);
    count := FlushPartial(buffer, charsTotal, tmpChar, bits, group, PackBits(whole), limit);
  }

  /**
   * One turn of the packing loop: the bit joins the current group, and a
   * group of eight is stored as the next byte.
   */
  method PushBit(buffer: array<byte>, bit: bool, tmpChar: nat, bits: nat, charsTotal: nat,
                 ghost whole: seq<bool>, ghost group: seq<bool>, ghost total: nat, ghost limit: nat)
    returns (tmpChar': nat, bits': nat, charsTotal': nat, ghost whole': seq<bool>, ghost group': seq<bool>)
    requires |whole| == 8 * charsTotal && |group| == bits < 8 && tmpChar == MsbValue(group)
    requires total <= limit <= buffer.Length && |whole| + |group| + 1 <= 8 * total
    requires buffer[..charsTotal] == PackBits(whole)
    modifies buffer
    ensures whole' + group' == whole + group + [bit]
    ensures |whole'| == 8 * charsTotal' && |group'| == bits' < 8 && tmpChar' == MsbValue(group')
    ensures buffer[..charsTotal'] == PackBits(whole')
    ensures buffer[limit..] == old(buffer[limit..])
  {
    MsbSnoc(group, bit);
    tmpChar' := tmpChar * 2 + (if bit then 1 else 0);
    bits' := bits + 1;
    group' := group + [bit];
    whole' := whole;
    charsTotal' := charsTotal;
    if bits' == 8 {
      WholeBytes(charsTotal);
      PackGroup(whole, group');
      StoreByte(buffer, charsTotal, tmpChar', limit);
      charsTotal' := charsTotal + 1;
      bits' := 0;
      tmpChar' := 0;
      whole' := whole + group';
      group' := [];
    }
  }

  /** The end of packing: an unfinished group becomes a left-aligned last byte. */
  method FlushPartial(buffer: array<byte>, charsTotal: nat, tmpChar: nat, bits: nat,
                      ghost group: seq<bool>, ghost prefix: seq<byte>, ghost limit: nat)
    returns (count: nat)
    requires |group| == bits < 8 && tmpChar == MsbValue(group)
    requires |prefix| == charsTotal && charsTotal + |PackBits(group)| <= limit <= buffer.Length
    requires buffer[..charsTotal] == prefix
    modifies buffer
    ensures count == charsTotal + |PackBits(group)|
    ensures buffer[..count] == prefix + PackBits(group)
    ensures buffer[limit..] == old(buffer[limit..])
  {
    if bits == 0 {
      count := charsTotal;
    } else {
      var aligned := AlignLeft(tmpChar, bits, group);
      PartialByte(group);
      StoreByte(buffer, charsTotal, aligned, limit);
      count := charsTotal + 1;
    }
  }

  /** Stores one finished byte at position `i`, below the untouched tail at `limit`. */
  method StoreByte(buffer: array<byte>, i: nat, v: nat, ghost limit: nat)
    requires i < limit <= buffer.Length && v < 256
    modifies buffer
    ensures buffer[..i + 1] == old(buffer[..i]) + [v as byte]
    ensures buffer[limit..] == old(buffer[limit..])
  {
    buffer[i] := v as byte;
  }

  /** The last partial byte is shifted up so that its bits start at the top. */
  method AlignLeft(tmp: nat, bits: nat, ghost group: seq<bool>) returns (aligned: nat)
    requires 0 < bits < 8 && |group| == bits && tmp == MsbValue(group)
    ensures aligned == MsbValue(group + Zeros(8 - bits))
  {
    aligned := tmp;
    var n := bits;
    ghost var k: nat := 0;
    assert group + Zeros(0) == group;
    while n < 8
      invariant n <= 8 && n == bits + k
      invariant aligned == MsbValue(group + Zeros(k))
    {
      assert group + Zeros(k + 1) == (group + Zeros(k)) + [false];
      MsbSnoc(group + Zeros(k), false);
      aligned := aligned * 2;
      n := n + 1;
      k := k + 1;
    }
  }

  lemma PartialByte(group: seq<bool>)
    requires 0 < |group| < 8
    ensures PackBits(group) == [ByteOf(group + Zeros(8 - |group|))]
    ensures MsbValue(group + Zeros(8 - |group|)) < 256
  {
    MsbValueBound(group + Zeros(8 - |group|));
    EightBits();
  }

  /** The next bit sent is the low bit of what is left of the code. */
  lemma NextBit(sent: seq<bool>, code: nat)
    requires code != 0
    ensures sent + Bits(code) == (sent + [code % 2 == 1]) + Bits(code / 2)
  {
  }

  lemma WholeBytes(c: nat)
    ensures (8 * c) % 8 == 0
  {
  }

  /** Eight collected bits become one byte of the output. */
  lemma PackGroup(whole: seq<bool>, group: seq<bool>)
    requires |whole| % 8 == 0 && |group| == 8
    ensures PackBits(whole + group) == PackBits(whole) + [ByteOf(group)]
    ensures MsbValue(group) < 256
  {
    PackBitsAppend(whole, group);
    assert group[..8] == group && group[8..] == [];
    assert PackBits(group) == [ByteOf(group)] + PackBits([]);
    MsbValueBound(group);
    EightBits();
  }

  /** encodeToBuffer's final loop: zero bytes up to the next multiple of itemSize. */
  method PadToItems(buffer: array<byte>, count: nat, itemSize: nat, ghost out: seq<byte>) returns (total: nat)
    requires itemSize >= 1 && count <= |out| <= buffer.Length
    requires RoundUp(count, itemSize) == |out| && out[count..] == seq(|out| - count, _ => 0 as byte)
    requires buffer[..count] == out[..count]
    modifies buffer
    ensures total == |out| && (total / itemSize) * itemSize == total
    ensures buffer[..total] == out
    ensures buffer[total..] == old(buffer[total..])
  {
    total := count;
    while total % itemSize != 0
      invariant count <= total <= |out|
      invariant buffer[..total] == out[..total]
      invariant buffer[|out|..] == old(buffer[|out|..])
      invariant RoundUp(total, itemSize) == |out|
      decreases |out| - total
    {
      RoundUpStep(total, itemSize);
      buffer[total] := 0;
      total := total + 1;
    }
    RoundUpExact(total, itemSize);
  }

  /** RoundUp without the remainder of the padding. */
  lemma RoundUpValue(x: nat, s: nat)
    requires s >= 1
    ensures RoundUp(x, s) == if x % s == 0 then x else x + s - x % s
  {
    var r := x % s;
    if r == 0 {
      DivUnique(s, s, 1, 0);
    } else {
      DivUnique(s - r, s, 0, s - r);
    }
  }

  lemma RoundUpStep(x: nat, s: nat)
    requires s >= 1 && x % s != 0
    ensures RoundUp(x + 1, s) == RoundUp(x, s)
    ensures x < RoundUp(x, s)
  {
    var q, r := x / s, x % s;
    assert x == s * q + r;
    RoundUpValue(x, s);
    RoundUpValue(x + 1, s);
    if r + 1 == s {
      assert x + 1 == s * (q + 1) + 0;
      DivUnique(x + 1, s, q + 1, 0);
    } else {
      DivUnique(x + 1, s, q, r + 1);
    }
  }

  lemma RoundUpExact(x: nat, s: nat)
    requires s >= 1 && x % s == 0
    ensures RoundUp(x, s) == x && (x / s) * s == x
  {
    RoundUpValue(x, s);
    assert x == s * (x / s) + 0;
  }

  // ---------------------------------------------------------------------
  // Reading a buffer back
  // ---------------------------------------------------------------------

  /** Index of the bit that completes the first pair of adjacent ones at or after i. */
  function FindStop(bits: seq<bool>, i: nat, lastWasOne: bool): (r: Option<nat>)
    requires i <= |bits|
    ensures r.Some? ==> i <= r.value < |bits|
    decreases |bits| - i
  {
    if i == |bits| then None
    else if bits[i] && lastWasOne then Some(i)
    else FindStop(bits, i + 1, bits[i])
  }

  /**
   * decodeFromBuffer as written: each bit is shifted in at the low end of an
   * unsigned long, so the first bit read ends up most significant. Returns the
   * assembled code (the terminating one excluded) and the index of that one.
   */
  function AsWrittenScan(bits: seq<bool>, i: nat, code: nat, lastWasOne: bool): (r: Option<(nat, nat)>)
    requires i <= |bits|
    ensures r.Some? ==> r.value.1 < |bits|
    decreases |bits| - i
  {
    if i == |bits| then None
    else if bits[i] && lastWasOne then Some((code, i))
    else AsWrittenScan(bits, i + 1, ShiftIn(code, bits[i]), bits[i])
  }

  /** An unsigned long shifted left by one with the bit in its lowest place; the top bit is lost. */
  function ShiftIn(code: nat, bit: bool): (r: nat)
    ensures r < ULongLimit
    ensures code < ULongLimit / 2 ==> r == 2 * code + (if bit then 1 else 0)
  {
    (2 * code) % ULongLimit + (if bit then 1 else 0)
  }

  /** Items a reader consumed when the code ended at bit index stop. */
  function ItemsUsed(stop: nat, itemSize: nat): nat
    requires itemSize >= 1
  {
    RoundUp(stop / 8 + 1, itemSize) / itemSize
  }

  /** With one-byte items, a reader consumes every byte up to the one holding the stop bit. */
  lemma ItemsOfBytes(stop: nat, itemSize: nat)
    requires itemSize == 1
    ensures ItemsUsed(stop, itemSize) == stop / 8 + 1
  {
    DivUnique(stop / 8 + 1, itemSize, stop / 8 + 1, 0);
    RoundUpExact(stop / 8 + 1, itemSize);
  }

  /** The number and item count decodeFromBuffer yields, None where it reads past the buffer or the table. */
  function AsWrittenDecode(bytes: seq<byte>, itemSize: nat): Option<(nat, nat)>
    requires itemSize >= 1
  {
    match AsWrittenScan(StreamBits(bytes), 0, 0, false)
    case None => None
    case Some((code, stop)) =>
      if code >= ULongLimit then None
      else match DecodeFrom(code, 0, false)
        case None => None
        case Some(n) => Some((n, ItemsUsed(stop, itemSize)))
  }

  /**
   * The intended reading, as the streaming decoder of the XML models does it:
   * bits keep their order (the first bit read is the least significant),
   * leading zeros included, and the terminating one is part of the code.
   */
  function FixedDecode(bytes: seq<byte>, itemSize: nat): Option<(nat, nat)>
    requires itemSize >= 1
  {
    var bits := StreamBits(bytes);
    match FindStop(bits, 0, false)
    case None => None
    case Some(stop) =>
      if stop >= 64 then None
      else match DecodeFrom(Val(bits[..stop + 1]), 0, false)
        case None => None
        case Some(n) => Some((n, ItemsUsed(stop, itemSize)))
  }

  /** Fibonacci::decodeFromBuffer as written (see AsWrittenDecode). */
  method DecodeFromBuffer(buffer: array<byte>, itemSize: nat) returns (number: nat, nrItems: nat)
    requires itemSize >= 1
    requires AsWrittenDecode(buffer[..], itemSize).Some?
    ensures AsWrittenDecode(buffer[..], itemSize) == Some((number, nrItems))
  {
    ghost var bits := StreamBits(buffer[..]);
    var code: nat := 0;
    var lastWasOne := false;
    var charsTotal: nat := 0;
    while true
      invariant 8 * charsTotal <= |bits| && code < ULongLimit
      invariant AsWrittenScan(bits, 8 * charsTotal, code, lastWasOne) == AsWrittenScan(bits, 0, 0, false)
      decreases buffer.Length - charsTotal
    {
      var tmpChar := buffer[charsTotal];
      var done;
      ghost var stop;
      StreamBitsSlice(buffer[..], charsTotal);
      code, lastWasOne, done, stop := ScanByte(tmpChar, code, lastWasOne, bits, 8 * charsTotal);
      charsTotal := charsTotal + 1;
      if done {
        AsWrittenDecodeAt(buffer[..], itemSize, code, stop);
        number := Decode(code);
        assert stop / 8 + 1 == charsTotal;
        charsTotal, nrItems := RoundToItems(charsTotal, itemSize);
        return;
      }
    }
  }

  /**
   * The inner loop of decodeFromBuffer as written: the bits of one byte, top
   * bit first, shifted in at the low end of the code until two adjacent ones.
   */
  method ScanByte(tmpChar: byte, code: nat, lastWasOne: bool, ghost bits: seq<bool>, ghost start: nat)
    returns (code': nat, lastWasOne': bool, done: bool, ghost stop: nat)
    requires start + 8 <= |bits| && code < ULongLimit
    requires forall t :: 0 <= t < 8 ==> bits[start + t] == ByteBits(tmpChar)[t]
    ensures code' < ULongLimit
    ensures done ==> start <= stop < start + 8 && AsWrittenScan(bits, start, code, lastWasOne) == Some((code', stop))
    ensures !done ==> AsWrittenScan(bits, start + 8, code', lastWasOne') == AsWrittenScan(bits, start, code, lastWasOne)
  {
    code', lastWasOne', done, stop := code, lastWasOne, false, 0;
    ghost var target := AsWrittenScan(bits, start, code, lastWasOne);
    var mask: nat := 128;
    ghost var m: int := 7;
    while mask != 0
      invariant -1 <= m <= 7 && mask == (if m >= 0 then Pow2(m) else 0)
      invariant code' < ULongLimit
      invariant AsWrittenScan(bits, start + 7 - m, code', lastWasOne') == target
      decreases m
    {
      ghost var i := start + 7 - m;
      var b := ReadBit(tmpChar, mask, m);
      assert bits[i] == b;
      code', lastWasOne', done := ScanBit(code', lastWasOne', b, bits, i);
      if done {
        stop := i;
        return;
      }
      HalfPow2(m);
      mask := mask / 2;
      m := m - 1;
    }
  }

  lemma HalfPow2(m: nat)
    ensures Pow2(m) / 2 == if m >= 1 then Pow2(m - 1) else 0
  {
  }

  /** The bit of tmpChar that mask selects, mask being 2 to the m. */
  method ReadBit(tmpChar: byte, mask: nat, ghost m: nat) returns (b: bool)
    requires m < 8 && mask == Pow2(m)
    ensures b == ByteBits(tmpChar)[7 - m]
  {
    b := (tmpChar as int / mask) % 2 == 1;
  }

  /** One bit of decodeFromBuffer as written. */
  method ScanBit(code: nat, lastWasOne: bool, b: bool, ghost bits: seq<bool>, ghost i: nat)
    returns (code': nat, lastWasOne': bool, done: bool)
    requires i < |bits| && bits[i] == b && code < ULongLimit
    ensures code' < ULongLimit
    ensures done ==> AsWrittenScan(bits, i, code, lastWasOne) == Some((code', i))
    ensures !done ==> AsWrittenScan(bits, i + 1, code', lastWasOne') == AsWrittenScan(bits, i, code, lastWasOne)
  {
    code', lastWasOne', done := code, lastWasOne, false;
    if b {
      if !lastWasOne {
        code' := ShiftIn(code, true);
        lastWasOne' := true;
      } else {
        done := true;
      }
    } else {
      code' := ShiftIn(code, false);
      lastWasOne' := false;
    }
  }

  /** What AsWrittenDecode returns once the scan has ended. */
  lemma AsWrittenDecodeAt(bytes: seq<byte>, itemSize: nat, code: nat, stop: nat)
    requires itemSize >= 1 && AsWrittenScan(StreamBits(bytes), 0, 0, false) == Some((code, stop))
    requires AsWrittenDecode(bytes, itemSize).Some?
    ensures code < ULongLimit && DecodeFrom(code, 0, false).Some?
    ensures AsWrittenDecode(bytes, itemSize) == Some((DecodeFrom(code, 0, false).value, ItemsUsed(stop, itemSize)))
  {
  }

  /** The padding loop both decoders end with: round up to whole items and count them. */
  method RoundToItems(chars: nat, itemSize: nat) returns (charsTotal: nat, nrItems: nat)
    requires itemSize >= 1
    ensures charsTotal == RoundUp(chars, itemSize) && charsTotal % itemSize == 0
    ensures nrItems == RoundUp(chars, itemSize) / itemSize
  {
    charsTotal := chars;
    while charsTotal % itemSize != 0
      invariant chars <= charsTotal <= RoundUp(chars, itemSize)
      invariant RoundUp(charsTotal, itemSize) == RoundUp(chars, itemSize)
      decreases RoundUp(chars, itemSize) - charsTotal
    {
      RoundUpStep(charsTotal, itemSize);
      charsTotal := charsTotal + 1;
    }
    RoundUpExact(charsTotal, itemSize);
    nrItems := charsTotal / itemSize;
  }

  lemma Pow2Add(a: nat, b: nat)
    ensures Pow2(a + b) == Pow2(a) * Pow2(b)
    decreases a
  {
    if a > 0 {
      Pow2Add(a - 1, b);
    }
  }

  /**
   * The corrected decodeFromBuffer: the bit steps of the streaming decoder
   * (a right shift per bit, a one entering at bit 63, and a final shift by
   * 64 - bits read) applied to consecutive buffer bytes.
   */
  method DecodeFromBufferFixed(buffer: array<byte>, itemSize: nat) returns (number: nat, nrItems: nat)
    requires itemSize >= 1
    requires FixedDecode(buffer[..], itemSize).Some?
    ensures FixedDecode(buffer[..], itemSize) == Some((number, nrItems))
  {
    ghost var bits := StreamBits(buffer[..]);
    ghost var stop := FindStop(bits, 0, false).value;
    FixedDecodeAt(buffer[..], itemSize, stop);
    assert Zeros(64) + bits[..0] == Zeros(64);
    ValOfZeros(64);
    var fibCode: nat := 0;
    var fibBits: nat := 0;
    var lastWasOne := false;
    var charsTotal: nat := 0;
    while true
      invariant fibBits == 8 * charsTotal && fibBits <= stop
      invariant fibCode == Window(bits, fibBits)
      invariant FindStop(bits, fibBits, lastWasOne) == Some(stop)
      decreases buffer.Length - charsTotal
    {
      var tmpChar := buffer[charsTotal];
      var done;
      fibCode, fibBits, lastWasOne, done := TakeByte(tmpChar, fibCode, fibBits, lastWasOne, buffer[..], charsTotal, stop);
      charsTotal := charsTotal + 1;
      if done {
        number := Decode(fibCode);
        assert (fibBits - 1) / 8 + 1 == charsTotal;
        charsTotal, nrItems := RoundToItems(charsTotal, itemSize);
        return;
      }
    }
  }

  /** The eight bits of one byte, top bit first, fed to TakeBit until the code ends. */
  method TakeByte(tmpChar: byte, fibCode: nat, fibBits: nat, lastWasOne: bool,
                  ghost bytes: seq<byte>, ghost c: nat, ghost stop: nat)
    returns (fibCode': nat, fibBits': nat, lastWasOne': bool, done: bool)
    requires c < |bytes| && bytes[c] == tmpChar && fibBits == 8 * c
    requires fibBits <= stop < |StreamBits(bytes)| && stop < 64
    requires fibCode == Window(StreamBits(bytes), fibBits) && FindStop(StreamBits(bytes), fibBits, lastWasOne) == Some(stop)
    ensures done ==> fibBits < fibBits' == stop + 1 <= fibBits + 8
    ensures done ==> fibCode' == Val(StreamBits(bytes)[..stop + 1]) < ULongLimit
    ensures !done ==> fibBits' == fibBits + 8 && fibBits' <= stop && fibCode' == Window(StreamBits(bytes), fibBits')
    ensures !done ==> FindStop(StreamBits(bytes), fibBits', lastWasOne') == Some(stop)
  {
    ghost var bits := StreamBits(bytes);
    fibCode', fibBits', lastWasOne', done := fibCode, fibBits, lastWasOne, false;
    var mask: nat := 128;
    ghost var m: int := 7;
    while mask != 0
      invariant -1 <= m <= 7 && mask == (if m >= 0 then Pow2(m) else 0)
      invariant fibBits' == fibBits + 7 - m && fibBits' <= stop
      invariant fibCode' == Window(StreamBits(bytes), fibBits')
      invariant FindStop(bits, fibBits', lastWasOne') == Some(stop)
      decreases m
    {
      StreamBitsAt(bytes, c, 7 - m);
      var b := ReadBit(tmpChar, mask, m);
      assert bits[fibBits'] == b;
      fibCode', fibBits', lastWasOne', done := TakeBit(fibCode', fibBits', lastWasOne', b, bits, stop);
      if done {
        return;
      }
      HalfPow2(m);
      mask := mask / 2;
      m := m - 1;
    }
  }

  lemma StreamBitsSlice(bytes: seq<byte>, c: nat)
    requires c < |bytes|
    ensures forall t :: 0 <= t < 8 ==> StreamBits(bytes)[8 * c + t] == ByteBits(bytes[c])[t]
  {
    forall t | 0 <= t < 8
      ensures StreamBits(bytes)[8 * c + t] == ByteBits(bytes[c])[t]
    {
      StreamBitsAt(bytes, c, t);
    }
  }

  /**
   * One bit of the streaming decoder: the register shifts right and a one
   * enters at bit 63; the second of two adjacent ones ends the code, and the
   * register is shifted down by the bits it did not receive.
   */
  method TakeBit(fibCode: nat, fibBits: nat, lastWasOne: bool, b: bool, ghost bits: seq<bool>, ghost stop: nat)
    returns (fibCode': nat, fibBits': nat, lastWasOne': bool, done: bool)
    requires fibBits <= stop < |bits| && stop < 64 && bits[fibBits] == b
    requires fibCode == Window(bits, fibBits) && FindStop(bits, fibBits, lastWasOne) == Some(stop)
    ensures fibBits' == fibBits + 1
    ensures done ==> fibBits' == stop + 1 && fibCode' == Val(bits[..stop + 1]) < ULongLimit
    ensures !done ==> fibBits' <= stop && fibCode' == Window(bits, fibBits')
    ensures !done ==> FindStop(bits, fibBits', lastWasOne') == Some(stop)
  {
    WindowStep(bits, fibBits);
    fibCode' := fibCode / 2;
    fibBits' := fibBits + 1;
    lastWasOne' := b;
    done := false;
    if b {
      fibCode' := fibCode' + Pow2(63);
      if lastWasOne {
        WindowFinal(bits, fibBits');
        fibCode' := fibCode' / Pow2(64 - fibBits');
        done := true;
      }
    }
  }

  /** What FixedDecode returns once its stop bit is known. */
  lemma FixedDecodeAt(bytes: seq<byte>, itemSize: nat, stop: nat)
    requires itemSize >= 1 && FindStop(StreamBits(bytes), 0, false) == Some(stop)
    requires FixedDecode(bytes, itemSize).Some?
    ensures stop < 64 && stop < |StreamBits(bytes)|
    ensures DecodeFrom(Val(StreamBits(bytes)[..stop + 1]), 0, false).Some?
    ensures FixedDecode(bytes, itemSize)
         == Some((DecodeFrom(Val(StreamBits(bytes)[..stop + 1]), 0, false).value, ItemsUsed(stop, itemSize)))
  {
  }

  /**
   * The streaming decoder's 64-bit register after k bits: the bits read fill
   * its top k bits, first bit lowest, below them 64 - k zeros.
   */
  function Window(bits: seq<bool>, k: nat): nat
    requires k <= |bits| && k <= 64
  {
    Val(Zeros(64 - k) + bits[..k])
  }

  lemma WindowStep(bits: seq<bool>, k: nat)
    requires k < |bits| && k < 64
    ensures Window(bits, k + 1) == Window(bits, k) / 2 + (if bits[k] then Pow2(63) else 0)
  {
    var z := Zeros(63 - k);
    var s := bits[..k];
    assert Zeros(64 - k) + s == [false] + (z + s);
    assert Window(bits, k) == 2 * Val(z + s) by {
      assert ([false] + (z + s))[1..] == z + s;
    }
    assert Zeros(63 - k) + bits[..k + 1] == (z + s) + [bits[k]];
    ValSnoc(z + s, bits[k]);
  }

  lemma {:induction false} ValOfZeros(k: nat)
    ensures Val(Zeros(k)) == 0
  {
    if k > 0 {
      assert Zeros(k)[1..] == Zeros(k - 1);
      ValOfZeros(k - 1);
    }
  }

  lemma ValSnoc(s: seq<bool>, b: bool)
    ensures Val(s + [b]) == Val(s) + (if b then Pow2(|s|) else 0)
  {
    assert [b][1..] == [];
    var p := Pow2(|s|);
    ValAppend(s, [b]);
    if b {
      assert Val([b]) == 1;
      assert p * 1 == p;
    } else {
      assert Val([b]) == 0;
      assert p * 0 == 0;
    }
  }

  lemma WindowFinal(bits: seq<bool>, k: nat)
    requires k <= |bits| && k <= 64
    ensures Window(bits, k) / Pow2(64 - k) == Val(bits[..k]) && Val(bits[..k]) < ULongLimit
  {
    var v := Val(bits[..k]);
    ValAppend(Zeros(64 - k), bits[..k]);
    ValOfZeros(64 - k);
    assert Window(bits, k) == Pow2(64 - k) * v;
    ValBound(bits[..k]);
    FinalShift(v, k);
  }

  /** The final shift by 64 - k drops the zeros below the k bits read. */
  lemma FinalShift(v: nat, k: nat)
    requires k <= 64 && v < Pow2(k)
    ensures (Pow2(64 - k) * v) / Pow2(64 - k) == v && v < ULongLimit
  {
    DivUnique(Pow2(64 - k) * v, Pow2(64 - k), v, 0);
    Pow2Add(k, 64 - k);
    MulAtLeast(Pow2(k), Pow2(64 - k));
    Pow2Of64();
  }

  lemma Pow2Of64()
    ensures Pow2(64) == ULongLimit
  {
    Pow2Of32();
    Pow2Add(32, 32);
  }

  lemma Pow2Of32()
    ensures Pow2(32) == 0x1_0000_0000
  {
    Pow2Of16();
    Pow2Add(16, 16);
  }

  lemma Pow2Of16()
    ensures Pow2(16) == 0x1_0000
  {
    EightBits();
    Pow2Add(8, 8);
  }

  // ---------------------------------------------------------------------
  // What the two readers make of encodeToBuffer's output
  // ---------------------------------------------------------------------

  lemma {:induction false} FindStopSkips(bits: seq<bool>, a: seq<bool>, i: nat, last: bool)
    requires i + |a| <= |bits| && bits[i..i + |a|] == a
    requires NoAdjacentOnes(a, last)
    ensures FindStop(bits, i, last) == FindStop(bits, i + |a|, LastBit(a, last))
    decreases |a|
  {
    if a != [] {
      assert bits[i + 1..i + |a|] == a[1..];
      FindStopSkips(bits, a[1..], i + 1, a[0]);
      assert LastBit(a[1..], a[0]) == LastBit(a, last);
    }
  }

  /**
   * The corrected reader inverts encodeToBuffer: whatever follows the written
   * items, it returns the number and the item count encodeToBuffer returned.
   */
  lemma BufferRoundTrip(n: nat, itemSize: nat, rest: seq<byte>)
    requires 1 <= n < FibLimit && itemSize >= 1
    ensures FixedDecode(EncodedBuffer(n, itemSize) + rest, itemSize)
         == Some((n, |EncodedBuffer(n, itemSize)| / itemSize))
  {
    var d := Digits(n);
    DigitsAreZeckendorf(n);
    var code := d + [true];
    BitsOfVal(code);
    var packed := PackBits(code);
    var pad := seq(RoundUp(|packed|, itemSize) - |packed|, _ => 0 as byte);
    var bytes := EncodedBuffer(n, itemSize) + rest;
    assert bytes == packed + (pad + rest);
    PackedPrefix(code, pad + rest);
    StopOfDigits(d, StreamBits(bytes));
    RoundTrip(n);
    EncodedItems(n, itemSize);
    FixedDecodeOf(bytes, itemSize, |d|, n);
  }

  /** The bit stream of packed bytes starts with the packed bits, whatever follows them. */
  lemma PackedPrefix(bits: seq<bool>, tail: seq<byte>)
    ensures |bits| <= |StreamBits(PackBits(bits) + tail)|
    ensures StreamBits(PackBits(bits) + tail)[..|bits|] == bits
  {
    StreamBitsAppend(PackBits(bits), tail);
    StreamOfPacked(bits);
  }

  /** A reader that meets Zeckendorf digits and then a one stops right at that one. */
  lemma StopOfDigits(d: seq<bool>, bits: seq<bool>)
    requires d != [] && LastBit(d, false) && NoAdjacentOnes(d, false)
    requires |d| + 1 <= |bits| && bits[..|d| + 1] == d + [true]
    ensures FindStop(bits, 0, false) == Some(|d|)
  {
    assert bits[0..|d|] == d;
    FindStopSkips(bits, d, 0, false);
    assert bits[|d|] == true;
  }

  /** The item count a reader derives from the stop bit is the one encodeToBuffer returned. */
  lemma EncodedItems(n: nat, itemSize: nat)
    requires itemSize >= 1
    ensures ItemsUsed(|Digits(n)|, itemSize) == |EncodedBuffer(n, itemSize)| / itemSize
  {
    var code := Digits(n) + [true];
    BitsOfVal(code);
    var packed := PackBits(code);
    PackBitsLength(code);
    assert |Digits(n)| / 8 + 1 == |packed|;
    RoundUpIsMultiple(|packed|, itemSize);
  }

  lemma RoundUpIsMultiple(x: nat, s: nat)
    requires s >= 1
    ensures RoundUp(x, s) % s == 0 && x <= RoundUp(x, s) < x + s
  {
    var q, r := x / s, x % s;
    assert x == s * q + r;
    RoundUpValue(x, s);
    if r != 0 {
      assert x + s - r == s * (q + 1) + 0;
      DivUnique(x + s - r, s, q + 1, 0);
    }
  }

  /**
   * The as-written reader does not invert encodeToBuffer: the number n = 2 is
   * written as the single byte 0x60 (bits 0, 1, then the terminating 1),
   * and reading that byte back yields 1.
   */
  lemma AsWrittenMisreadsTwo(n: nat)
    requires n == 2
    ensures EncodedBuffer(n, 1) == [0x60]
    ensures AsWrittenDecode([0x60], 1) == Some((1, 1))
    ensures FixedDecode([0x60], 1) == Some((n, 1))
  {
    EncodedTwo(n);
    AsWrittenReadsOne([0x60], 1);
    FixedReadsTwo([0x60], 1);
  }

  lemma AsWrittenReadsOne(bytes: seq<byte>, itemSize: nat)
    requires bytes == [0x60] && itemSize == 1
    ensures AsWrittenDecode(bytes, itemSize) == Some((1, 1))
  {
    DecodeOne();
    ReadSixty(bytes);
    ItemsOfBytes(2, itemSize);
    AsWrittenDecodeOf(bytes, itemSize, 1, 2, 1);
  }

  lemma DecodeOne()
    ensures DecodeFrom(1, 0, false) == Some(1)
  {
    assert DecodeFrom(0, 1, true) == Some(0);
  }

  lemma DecodeSix()
    ensures DecodeFrom(6, 0, false) == Some(2)
  {
    assert DecodeFrom(3, 1, false) == AddTo(DecodeFrom(1, 2, true), Fib(1));
    assert DecodeFrom(1, 2, true) == Some(0);
  }

  lemma ValSix()
    ensures Val([false, true, true]) == 6
  {
    assert [false, true, true][1..] == [true, true];
    assert [true, true][1..] == [true];
    assert [true][1..] == [];
  }

  lemma AsWrittenDecodeOf(bytes: seq<byte>, itemSize: nat, code: nat, stop: nat, n: nat)
    requires itemSize >= 1 && AsWrittenScan(StreamBits(bytes), 0, 0, false) == Some((code, stop))
    requires code < ULongLimit && DecodeFrom(code, 0, false) == Some(n)
    ensures AsWrittenDecode(bytes, itemSize) == Some((n, ItemsUsed(stop, itemSize)))
  {
  }

  lemma FixedDecodeOf(bytes: seq<byte>, itemSize: nat, stop: nat, n: nat)
    requires itemSize >= 1 && FindStop(StreamBits(bytes), 0, false) == Some(stop) && stop < 64
    requires DecodeFrom(Val(StreamBits(bytes)[..stop + 1]), 0, false) == Some(n)
    ensures FixedDecode(bytes, itemSize) == Some((n, ItemsUsed(stop, itemSize)))
  {
  }

  lemma FixedReadsTwo(bytes: seq<byte>, itemSize: nat)
    requires bytes == [0x60] && itemSize == 1
    ensures FixedDecode(bytes, itemSize) == Some((2, 1))
  {
    ReadSixty(bytes);
    SixtyCode(StreamBits(bytes));
    DecodeSix();
    ItemsOfBytes(2, itemSize);
    FixedDecodeOf(bytes, itemSize, 2, 2);
  }

  /** The corrected reader's code for the bits of 0x60 is 0b110 = 6. */
  lemma SixtyCode(bits: seq<bool>)
    requires bits == [false, true, true, false, false, false, false, false]
    ensures |bits| == 8 && Val(bits[..3]) == 6
  {
    assert bits[..3] == [false, true, true];
    ValSix();
  }

  /** The byte 0x60 holds the bits 0, 1, 1, 0, 0, 0, 0, 0, top bit first. */
  lemma SixtyBits()
    ensures ByteOf([false, true, true, false, false, false, false, false]) == 0x60
  {
    var g0: seq<bool> := [];
    var g1 := g0 + [false];
    var g2 := g1 + [true];
    var g3 := g2 + [true];
    var g4 := g3 + [false];
    var g5 := g4 + [false];
    var g6 := g5 + [false];
    var g7 := g6 + [false];
    var g8 := g7 + [false];
    MsbSnoc(g0, false);
    MsbSnoc(g1, true);
    MsbSnoc(g2, true);
    MsbSnoc(g3, false);
    MsbSnoc(g4, false);
    MsbSnoc(g5, false);
    MsbSnoc(g6, false);
    MsbSnoc(g7, false);
    assert MsbValue(g8) == 96;
    assert g8 == [false, true, true, false, false, false, false, false];
  }

  lemma SixtyRead()
    ensures ByteBits(0x60) == [false, true, true, false, false, false, false, false]
  {
    var g := [false, true, true, false, false, false, false, false];
    SixtyBits();
    ByteBitsOf(g);
  }

  /** The Zeckendorf digits of 2 are 0, 1: 2 is the second table entry. */
  lemma DigitsOfTwo(n: nat)
    requires n == 2
    ensures Digits(n) == [false, true]
  {
    assert ZeckLen(n, 2) == 2;
    ZeckLenAbove(n, 2, FibCount);
    assert Zeck(n - Fib(1), 1) == [false];
  }

  /** encodeToBuffer stores 2 as the single byte 0x60. */
  lemma EncodedTwo(n: nat)
    requires n == 2
    ensures EncodedBuffer(n, 1) == [0x60]
  {
    DigitsOfTwo(n);
    assert [false, true] + [true] == [false, true, true];
    ValSix();
    CodeBufferOfSix(EncodedCode(n));
  }

  /** The code word 6 (bits 0, 1, 1) fills the top three bits of one byte. */
  lemma CodeBufferOfSix(c: nat)
    requires c == 6
    ensures CodeBuffer(c, 1) == [0x60]
  {
    assert Bits(c) == [false, true, true] by {
      assert Bits(0) == [];
      assert Bits(1) == [true];
      assert Bits(3) == [true, true];
    }
    PackSix(Bits(c));
    CodeBufferWhole(c, 1);
  }

  lemma PackSix(bits: seq<bool>)
    requires bits == [false, true, true]
    ensures PackBits(bits) == [0x60]
  {
    assert bits + Zeros(5) == [false, true, true, false, false, false, false, false];
    SixtyBits();
  }

  /** No padding follows packed bytes that already fill whole items. */
  lemma CodeBufferWhole(c: nat, itemSize: nat)
    requires itemSize >= 1 && |PackBits(Bits(c))| % itemSize == 0
    ensures CodeBuffer(c, itemSize) == PackBits(Bits(c))
  {
    var packed := PackBits(Bits(c));
    RoundUpExact(|packed|, itemSize);
    var len := RoundUp(|packed|, itemSize) - |packed|;
    assert len == 0;
    assert seq(len, _ => 0 as byte) == [];
  }

  /** Both readers scan the bits of 0x60 and stop at bit index 2. */
  lemma ReadSixty(bytes: seq<byte>)
    requires bytes == [0x60]
    ensures StreamBits(bytes) == [false, true, true, false, false, false, false, false]
    ensures AsWrittenScan(StreamBits(bytes), 0, 0, false) == Some((1, 2))
    ensures FindStop(StreamBits(bytes), 0, false) == Some(2)
  {
    SixtyRead();
    assert StreamBits(bytes) == ByteBits(0x60) + StreamBits([]);
    var bits := StreamBits(bytes);
    assert AsWrittenScan(bits, 2, 1, true) == Some((1, 2));
    assert AsWrittenScan(bits, 1, 0, false) == Some((1, 2));
    assert FindStop(bits, 1, false) == Some(2);
  }

  /** Entries above the first one that exceeds n do not change where the greedy digits start. */
  lemma {:induction false} ZeckLenAbove(n: nat, k: nat, k': nat)
    requires k <= k' && n < Fib(k)
    ensures ZeckLen(n, k') == ZeckLen(n, k)
    decreases k'
  {
    if k' > k {
      FibGrows(k, k' - 1);
      ZeckLenAbove(n, k, k' - 1);
    }
  }
}
