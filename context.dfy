/**
 * Context: the adaptive frequency table the arithmetic coder draws its
 * intervals from (after Moffat, Neal and Witten, "Arithmetic Coding
 * Revisited").
 *
 * Array position 1 holds the escape symbol, position s + 2 the user symbol
 * s, and position 0 is unused.  The source keeps the frequencies in a
 * Moffat tree; this model keeps the frequencies the tree encodes, `freq`,
 * and states the tree's queries (getInterval, GET_COUNT, the decoder's
 * search) by the cumulative sums they compute.  The calls a context makes
 * into the arithmetic coder are recorded as `CoderCall` values.
 *
 * `Ctx` is the state of a context and the functions `SetTypeOf`,
 * `InstallOf`, `EncodeOf`, `DecodeOf`, `HalveOf` and `PurgeOf` its
 * transitions; the class `Context` runs them over a frequency array.
 */
module Contexts {

  /** F_BITS */
  const FBits: nat := 27

  /** MAX_FREQUENCY: 1 << F_BITS. */
  const MaxFrequency: int := 0x800_0000

  /** MIN_INCR */
  const MinIncr: int := 1

  datatype ContextType = StaticContext | DynamicContext

  /** What an operation reports (ContextBase::OperationResult, and a decoded symbol). */
  datatype Status = Ok | NotKnown | TooManySymbols | Symbol(value: int)

  /** The exception and the fatal error a context operation can end in. */
  datatype ContextError = NotInitialized | ZeroProbabilityNovelSymbol | TooManyInitialSymbols

  /** A call the context makes into the arithmetic coder. */
  datatype CoderCall =
    | EncodeCall(low: int, high: int, total: int)
    | DecodeTargetCall(total: int)
    | DecodeCall(low: int, high: int, total: int)

  /** mostFreqSymbol, mostFreqCount and mostFreqPos: the most frequent symbol's position, count and interval start. */
  datatype Mps = Mps(symbol: int, count: int, pos: int)

  /** No most frequent symbol yet. */
  const NoMps := Mps(-1, 0, 0)

  /** The fields of a context, with the frequencies the tree encodes. */
  datatype Ctx = Ctx(kind: ContextType, initialSize: int, maxLength: int, length: int, nSymbols: int,
                     total: int, incr: int, nSingletons: int, mps: Mps,
                     freq: seq<int>, endOfMessage: int, initialized: bool)

  /** The outcome of an operation: the new state, the coder calls made and the status, or an error. */
  datatype Step = Step(ctx: Ctx, calls: seq<CoderCall>, status: Status) | Raised(error: ContextError)

  // ---------------------------------------------------------------------
  // Sums and powers of two
  // ---------------------------------------------------------------------

  /** s[lo] + ... + s[hi - 1]. */
  function Sum(s: seq<int>, lo: int, hi: int): int
    requires 0 <= lo <= hi <= |s|
    decreases hi - lo
  {
    if lo == hi then 0 else Sum(s, lo, hi - 1) + s[hi - 1]
  }

  lemma {:induction false} SumSplit(s: seq<int>, lo: int, mid: int, hi: int)
    requires 0 <= lo <= mid <= hi <= |s|
    ensures Sum(s, lo, hi) == Sum(s, lo, mid) + Sum(s, mid, hi)
    decreases hi - mid
  {
    if mid < hi {
      SumSplit(s, lo, mid, hi - 1);
    }
  }

  lemma {:induction false} SumUpdate(s: seq<int>, lo: int, hi: int, k: int, v: int)
    requires 0 <= lo <= hi <= |s| && 0 <= k < |s|
    ensures Sum(s[k := v], lo, hi) == Sum(s, lo, hi) + (if lo <= k < hi then v - s[k] else 0)
    decreases hi - lo
  {
    if lo < hi {
      SumUpdate(s, lo, hi - 1, k, v);
    }
  }

  lemma {:induction false} SumNonNegative(s: seq<int>, lo: int, hi: int)
    requires 0 <= lo <= hi <= |s|
    requires forall i :: lo <= i < hi ==> s[i] >= 0
    ensures Sum(s, lo, hi) >= 0
    decreases hi - lo
  {
    if lo < hi {
      SumNonNegative(s, lo, hi - 1);
    }
  }

  lemma {:induction false} SumPrefix(s: seq<int>, t: seq<int>, lo: int, hi: int)
    requires 0 <= lo <= hi <= |s| && hi <= |t|
    requires forall i :: lo <= i < hi ==> s[i] == t[i]
    ensures Sum(s, lo, hi) == Sum(t, lo, hi)
    decreases hi - lo
  {
    if lo < hi {
      SumPrefix(s, t, lo, hi - 1);
    }
  }

  lemma {:induction false} SumZeros(s: seq<int>, lo: int, hi: int)
    requires 0 <= lo <= hi <= |s|
    requires forall i :: lo <= i < hi ==> s[i] == 0
    ensures Sum(s, lo, hi) == 0
    decreases hi - lo
  {
    if lo < hi {
      SumZeros(s, lo, hi - 1);
    }
  }

  predicate IsPowerOfTwo(n: int)
    decreases n
  {
    n == 1 || (n > 1 && n % 2 == 0 && IsPowerOfTwo(n / 2))
  }

  /** The least power of two that is at least `n`: setType's rounding loop. */
  function LeastPowerOfTwo(n: int, size: int): (p: int)
    requires size >= 1 && IsPowerOfTwo(size)
    ensures p >= size && p >= n && IsPowerOfTwo(p)
    ensures p == size || p / 2 < n
    decreases n - size
  {
    if size < n then LeastPowerOfTwo(n, 2 * size) else size
  }

  /** No smaller power of two reaches `n`. */
  lemma {:induction false} LeastPowerOfTwoIsLeast(n: int, size: int, q: int)
    requires size >= 1 && IsPowerOfTwo(size) && IsPowerOfTwo(q) && q >= size && q >= n
    ensures LeastPowerOfTwo(n, size) <= q
    decreases n - size
  {
    if size < n {
      PowerOfTwoDouble(size, q);
      assert IsPowerOfTwo(2 * size) by {
        assert (2 * size) / 2 == size;
      }
      LeastPowerOfTwoIsLeast(n, 2 * size, q);
    } else {
      assert LeastPowerOfTwo(n, size) == size;
    }
  }

  /** A power of two above another power of two is at least its double. */
  lemma {:induction false} PowerOfTwoDouble(p: int, q: int)
    requires IsPowerOfTwo(p) && IsPowerOfTwo(q) && q > p
    ensures q >= 2 * p
    decreases p
  {
    if p > 1 {
      assert q > 1;
      PowerOfTwoDouble(p / 2, q / 2);
    }
  }

  /** The number of positions in [lo, hi) holding `v`. */
  function CountEqual(s: seq<int>, lo: int, hi: int, v: int): nat
    requires 0 <= lo <= hi <= |s|
    decreases hi - lo
  {
    if lo == hi then 0 else CountEqual(s, lo, hi - 1, v) + (if s[hi - 1] == v then 1 else 0)
  }

  lemma {:induction false} CountEqualUpdate(s: seq<int>, lo: int, hi: int, p: int, x: int, v: int)
    requires 0 <= lo <= hi <= |s| && 0 <= p < |s|
    ensures CountEqual(s[p := x], lo, hi, v) ==
      CountEqual(s, lo, hi, v) + (if lo <= p < hi then (if x == v then 1 else 0) - (if s[p] == v then 1 else 0) else 0)
    decreases hi - lo
  {
    if lo < hi {
      CountEqualUpdate(s, lo, hi - 1, p, x, v);
    }
  }

  lemma {:induction false} CountEqualSplit(s: seq<int>, lo: int, mid: int, hi: int, v: int)
    requires 0 <= lo <= mid <= hi <= |s|
    ensures CountEqual(s, lo, hi, v) == CountEqual(s, lo, mid, v) + CountEqual(s, mid, hi, v)
    decreases hi - mid
  {
    if mid < hi {
      CountEqualSplit(s, lo, mid, hi - 1, v);
    }
  }

  lemma {:induction false} CountEqualPrefix(s: seq<int>, t: seq<int>, lo: int, hi: int, v: int)
    requires 0 <= lo <= hi <= |s| && hi <= |t| && s[lo..hi] == t[lo..hi]
    ensures CountEqual(s, lo, hi, v) == CountEqual(t, lo, hi, v)
    decreases hi - lo
  {
    if lo < hi {
      assert s[hi - 1] == s[lo..hi][hi - 1 - lo];
      SliceShorter(s, t, lo, hi);
      CountEqualPrefix(s, t, lo, hi - 1, v);
    }
  }

  lemma SliceShorter(s: seq<int>, t: seq<int>, lo: int, hi: int)
    requires 0 <= lo < hi <= |s| && hi <= |t| && s[lo..hi] == t[lo..hi]
    ensures s[lo..hi - 1] == t[lo..hi - 1]
  {
    forall k | lo <= k < hi - 1
      ensures s[k] == t[k]
    {
      assert s[k] == s[lo..hi][k - lo];
      assert t[k] == t[lo..hi][k - lo];
    }
  }

  lemma {:induction false} CountEqualNone(s: seq<int>, lo: int, hi: int, v: int)
    requires 0 <= lo <= hi <= |s| && forall i :: lo <= i < hi ==> s[i] != v
    ensures CountEqual(s, lo, hi, v) == 0
    decreases hi - lo
  {
    if lo < hi {
      CountEqualNone(s, lo, hi - 1, v);
    }
  }

  lemma {:induction false} CountEqualAll(s: seq<int>, lo: int, hi: int, v: int)
    requires 0 <= lo <= hi <= |s| && forall i :: lo <= i < hi ==> s[i] == v
    ensures CountEqual(s, lo, hi, v) == hi - lo
    decreases hi - lo
  {
    if lo < hi {
      CountEqualAll(s, lo, hi - 1, v);
    }
  }

  /** The positions holding `v` add up to no more than the sum of the non-negative values around them. */
  lemma {:induction false} CountedWithinSum(s: seq<int>, lo: int, hi: int, v: int)
    requires 0 <= lo <= hi <= |s| && v >= 0 && forall i :: lo <= i < hi ==> s[i] >= 0
    ensures v * CountEqual(s, lo, hi, v) <= Sum(s, lo, hi)
    decreases hi - lo
  {
    if lo < hi {
      CountedWithinSum(s, lo, hi - 1, v);
      Distribute(v, CountEqual(s, lo, hi - 1, v));
    }
  }

  /**
   * Halving (f + 1) >> 1 keeps zeros and non-zeros apart, and twice the
   * halved sum is at most the old sum plus one for each non-zero value.
   */
  lemma {:induction false} HalvedSum(f: seq<int>, h: seq<int>, lo: int, hi: int)
    requires 0 <= lo <= hi <= |f| && hi <= |h|
    requires forall i :: lo <= i < hi ==> f[i] >= 0 && h[i] == (f[i] + 1) / 2
    ensures 2 * Sum(h, lo, hi) <= Sum(f, lo, hi) + (hi - lo) - CountEqual(f, lo, hi, 0)
    ensures CountEqual(h, lo, hi, 0) == CountEqual(f, lo, hi, 0)
    decreases hi - lo
  {
    if lo < hi {
      HalvedSum(f, h, lo, hi - 1);
    }
  }

  // ---------------------------------------------------------------------
  // The invariant of a context at rest
  // ---------------------------------------------------------------------

  /** The shape of the table: sizes, non-negative frequencies and the running total. */
  ghost predicate Shape(c: Ctx)
  {
    c.maxLength >= 2 && IsPowerOfTwo(c.maxLength) && |c.freq| == c.maxLength + 1 &&
    c.initialSize >= 2 && IsPowerOfTwo(c.initialSize) &&
    (forall i :: 0 <= i < |c.freq| ==> c.freq[i] >= 0) && c.freq[0] == 0 &&
    c.total == Sum(c.freq, 1, |c.freq|) &&
    c.incr >= MinIncr &&
    1 <= c.length <= c.maxLength &&
    (forall i :: c.length < i < |c.freq| ==> c.freq[i] == 0)
  }

  /** The recorded most frequent symbol, if any, has the count and position the table gives it. */
  ghost predicate MostFrequentConsistent(c: Ctx)
    requires |c.freq| >= 1
  {
    c.mps == NoMps ||
    (1 <= c.mps.symbol < |c.freq| && c.mps.count == c.freq[c.mps.symbol] &&
     c.mps.pos == Sum(c.freq, 1, c.mps.symbol))
  }

  /**
   * The singleton count: for a dynamic context `incr` for each position
   * from 2 on whose frequency is exactly `incr`, plus one `incr` more; for
   * a static context 0.
   */
  ghost predicate SingletonsCounted(c: Ctx)
    requires |c.freq| >= 2
  {
    if c.kind == DynamicContext then c.nSingletons == c.incr + c.incr * CountEqual(c.freq, 2, |c.freq|, c.incr)
    else c.nSingletons == 0
  }

  /** The escape frequency is the singleton count. */
  ghost predicate EscapeTracksSingletons(c: Ctx)
    requires |c.freq| >= 2
  {
    c.freq[1] == c.nSingletons && SingletonsCounted(c)
  }

  lemma Distribute(a: int, n: int)
    ensures a * (n + 1) == a * n + a
  {
  }

  lemma SingletonsNonNegative(c: Ctx)
    requires |c.freq| >= 2 && c.incr >= MinIncr && SingletonsCounted(c)
    ensures c.nSingletons >= 0
    ensures c.kind == DynamicContext ==> c.nSingletons >= c.incr
  {
    if c.kind == DynamicContext {
      var n := CountEqual(c.freq, 2, |c.freq|, c.incr);
      assert c.incr * n >= 0;
    }
  }

  /** The positions from 2 on with a non-zero frequency: the symbols the table knows. */
  function KnownCount(f: seq<int>): int
    requires |f| >= 2
  {
    (|f| - 2) - CountEqual(f, 2, |f|, 0)
  }

  /**
   * The symbol count, which counts the escape, exceeds the symbols with a
   * frequency, and installSymbol keeps twice it below MAX_FREQUENCY.
   */
  ghost predicate SymbolsBounded(c: Ctx)
    requires |c.freq| >= 2
  {
    KnownCount(c.freq) < c.nSymbols && 2 * c.nSymbols < MaxFrequency
  }

  ghost predicate Valid(c: Ctx)
  {
    Shape(c) && MostFrequentConsistent(c) && EscapeTracksSingletons(c) && SymbolsBounded(c)
  }

  // ---------------------------------------------------------------------
  // Queries
  // ---------------------------------------------------------------------

  /** getInterval: the cumulative frequency below position `s`, and that plus the frequency of `s`. */
  function Interval(c: Ctx, s: int): (r: (int, int))
    requires 1 <= s < |c.freq|
  {
    (Sum(c.freq, 1, s), Sum(c.freq, 1, s) + c.freq[s])
  }

  /** GET_COUNT */
  function Count(c: Ctx, s: int): int
    requires 1 <= s < |c.freq|
  {
    c.freq[s]
  }

  /** Intervals of neighbouring positions meet: each starts where the one before ends. */
  lemma IntervalsContiguous(c: Ctx, s: int)
    requires Valid(c) && 1 <= s < |c.freq| - 1
    ensures Interval(c, s).1 == Interval(c, s + 1).0
    ensures Interval(c, s).1 - Interval(c, s).0 == Count(c, s)
    ensures 0 <= Interval(c, s).0 <= Interval(c, s).1 <= c.total
  {
    SumNonNegative(c.freq, 1, s);
    SumSplit(c.freq, 1, s + 1, |c.freq|);
    SumNonNegative(c.freq, s + 1, |c.freq|);
  }

  /** Intervals of distinct positions do not overlap. */
  lemma IntervalsDisjoint(c: Ctx, s: int, t: int)
    requires Valid(c) && 1 <= s < t < |c.freq|
    ensures Interval(c, s).1 <= Interval(c, t).0
  {
    SumSplit(c.freq, 1, s + 1, t);
    SumNonNegative(c.freq, s + 1, t);
  }

  // ---------------------------------------------------------------------
  // Updates
  // ---------------------------------------------------------------------

  /**
   * INCR_SYMBOL_PROB(symbol, low, high, inc): adds `inc` to the frequency
   * of `symbol` and to the total, and keeps the most frequent symbol up to
   * date given the symbol's old interval [low, high).
   */
  function IncrProb(c: Ctx, symbol: int, low: int, high: int, inc: int): Ctx
    requires 1 <= symbol < |c.freq|
  {
    c.(freq := c.freq[symbol := c.freq[symbol] + inc], total := c.total + inc,
       mps := IncrMps(c.mps, symbol, low, high, inc))
  }

  /** INCR_SYMBOL_PROB_MPS: the most frequent symbol after `symbol`, whose interval was [low, high), gained `inc`. */
  function IncrMps(m: Mps, symbol: int, low: int, high: int, inc: int): Mps
  {
    if symbol == m.symbol then m.(count := m.count + inc)
    else if high - low + inc > m.count then Mps(symbol, high - low + inc, low)
    else if symbol < m.symbol then m.(pos := m.pos + inc)
    else m
  }

  /** IncrProb at a symbol's true interval keeps the shape and the most frequent symbol consistent. */
  lemma IncrProbShape(c: Ctx, symbol: int, inc: int)
    requires Shape(c) && MostFrequentConsistent(c)
    requires 1 <= symbol <= c.length && c.freq[symbol] + inc >= 0
    ensures var r := IncrProb(c, symbol, Interval(c, symbol).0, Interval(c, symbol).1, inc);
      Shape(r) && MostFrequentConsistent(r) &&
      r.freq == c.freq[symbol := c.freq[symbol] + inc] && r.total == c.total + inc &&
      r.nSingletons == c.nSingletons && r.kind == c.kind && r.length == c.length
  {
    var f' := c.freq[symbol := c.freq[symbol] + inc];
    SumUpdate(c.freq, 1, |c.freq|, symbol, c.freq[symbol] + inc);
    if 1 <= c.mps.symbol {
      SumUpdate(c.freq, 1, c.mps.symbol, symbol, c.freq[symbol] + inc);
    }
    SumUpdate(c.freq, 1, symbol, symbol, c.freq[symbol] + inc);
  }

  /** ADJUST_ZERO_FREQ: brings the escape frequency back to the singleton count. */
  function AdjustZeroFreq(c: Ctx): Ctx
    requires |c.freq| >= 2
  {
    var diff := c.nSingletons - c.freq[1];
    if diff != 0 then IncrProb(c, 1, 0, c.freq[1], diff) else c
  }

  lemma AdjustZeroFreqValid(c: Ctx)
    requires Shape(c) && MostFrequentConsistent(c) && SingletonsCounted(c) && SymbolsBounded(c)
    ensures Valid(AdjustZeroFreq(c))
    ensures AdjustZeroFreq(c).freq == c.freq[1 := c.nSingletons]
    ensures AdjustZeroFreq(c) == c.(freq := AdjustZeroFreq(c).freq, total := AdjustZeroFreq(c).total,
      mps := AdjustZeroFreq(c).mps)
  {
    SingletonsNonNegative(c);
    CountEqualUpdate(c.freq, 2, |c.freq|, 1, c.nSingletons, c.incr);
    CountEqualUpdate(c.freq, 2, |c.freq|, 1, c.nSingletons, 0);
    if c.nSingletons != c.freq[1] {
      assert Interval(c, 1) == (0, c.freq[1]);
      IncrProbShape(c, 1, c.nSingletons - c.freq[1]);
    } else {
      assert c.freq[1 := c.nSingletons] == c.freq;
    }
  }

  /** initZeroFreq */
  function InitZeroFreq(c: Ctx): Ctx
  {
    if c.kind == DynamicContext then c.(nSingletons := c.nSingletons + c.incr) else c.(nSingletons := 0)
  }

  /** A position with a positive frequency has been installed. */
  lemma PositiveInstalled(c: Ctx, s: int)
    requires Shape(c) && 1 <= s < |c.freq| && c.freq[s] > 0
    ensures s <= c.length
  {
  }

  // ---------------------------------------------------------------------
  // Creating, growing and halving the table
  // ---------------------------------------------------------------------

  /** incr before any halving: 1 << F_BITS. */
  const InitialIncr: int := 0x800_0000

  function Zeros(n: nat): (z: seq<int>)
    ensures |z| == n && forall i :: 0 <= i < n ==> z[i] == 0
  {
    seq(n, _ => 0)
  }

  /**
   * The common end of setType and purgeContext: an empty table of `size`
   * positions past 0, with the escape symbol given the initial singleton
   * count.
   */
  function Reset(c: Ctx, size: int): Ctx
    requires size >= 2
  {
    var c1 := c.(length := 1, total := 0, nSymbols := 1, maxLength := size,
                 mps := NoMps,
                 freq := Zeros(size + 1), incr := InitialIncr, nSingletons := 0);
    AdjustZeroFreq(InitZeroFreq(c1))
  }

  /** setType(len, ct): room for `len` symbols, the end-of-message symbol and the escape. */
  function SetTypeOf(c: Ctx, len: int, ct: ContextType): Ctx
    requires len >= 0
  {
    var size := LeastPowerOfTwo(len + 2, 1);
    Reset(c.(kind := ct, endOfMessage := len + 1, initialSize := size), size)
  }

  /** purgeContext: back to an empty table of the original size. */
  function PurgeOf(c: Ctx): Ctx
    requires c.initialSize >= 2
  {
    Reset(c, c.initialSize)
  }

  lemma {:induction false} ResetValid(c: Ctx, size: int)
    requires size >= 2 && IsPowerOfTwo(size) && c.initialSize >= 2 && IsPowerOfTwo(c.initialSize)
    ensures Valid(Reset(c, size))
    ensures Reset(c, size).freq == Zeros(size + 1)[1 := Reset(c, size).nSingletons]
    ensures Reset(c, size).nSingletons == (if c.kind == DynamicContext then InitialIncr else 0)
    ensures Reset(c, size).total == Reset(c, size).nSingletons
    ensures Reset(c, size).length == 1 && Reset(c, size).maxLength == size && Reset(c, size).nSymbols == 1
    ensures Reset(c, size).incr == InitialIncr
    ensures Reset(c, size).kind == c.kind && Reset(c, size).initialized == c.initialized
    ensures Reset(c, size).endOfMessage == c.endOfMessage && Reset(c, size).initialSize == c.initialSize
  {
    var c1 := c.(length := 1, total := 0, nSymbols := 1, maxLength := size,
                 mps := NoMps,
                 freq := Zeros(size + 1), incr := InitialIncr, nSingletons := 0);
    SumZeros(c1.freq, 1, |c1.freq|);
    CountEqualNone(c1.freq, 2, |c1.freq|, InitialIncr);
    CountEqualAll(c1.freq, 2, |c1.freq|, 0);
    AdjustZeroFreqValid(InitZeroFreq(c1));
    var r := AdjustZeroFreq(InitZeroFreq(c1));
    SumUpdate(c1.freq, 1, |c1.freq|, 1, r.nSingletons);
  }

  /**
   * setType(n, t) leaves a valid empty table: end-of-message symbol n + 1,
   * maxLength the least power of two that is at least n + 2, every
   * frequency 0 but the escape's, which is the singleton count: 2^F_BITS
   * for a dynamic context and 0 for a static one.
   */
  lemma SetTypeFresh(c: Ctx, n: int, t: ContextType)
    requires n >= 0
    ensures var r := SetTypeOf(c, n, t);
      Valid(r) && r.endOfMessage == n + 1 && r.kind == t &&
      r.maxLength >= n + 2 && IsPowerOfTwo(r.maxLength) &&
      (forall q :: IsPowerOfTwo(q) && q >= n + 2 ==> r.maxLength <= q) &&
      r.initialSize == r.maxLength && r.length == 1 && r.nSymbols == 1 &&
      (forall i :: 0 <= i < |r.freq| && i != 1 ==> r.freq[i] == 0) &&
      r.nSingletons == (if t == DynamicContext then InitialIncr else 0) && r.total == r.nSingletons &&
      r.initialized == c.initialized
  {
    var size := LeastPowerOfTwo(n + 2, 1);
    assert size >= 2;
    ResetValid(c.(kind := t, endOfMessage := n + 1, initialSize := size), size);
    forall q | IsPowerOfTwo(q) && q >= n + 2
      ensures size <= q
    {
      LeastPowerOfTwoIsLeast(n + 2, 1, q);
    }
  }

  /** purgeContext keeps the type, the end-of-message symbol and the initialisation flag, and empties the table. */
  lemma PurgeFresh(c: Ctx)
    requires Valid(c)
    ensures var r := PurgeOf(c);
      Valid(r) && r.kind == c.kind && r.endOfMessage == c.endOfMessage && r.initialized == c.initialized &&
      r.maxLength == c.initialSize && r.length == 1 && r.nSymbols == 1 &&
      (forall i :: 0 <= i < |r.freq| && i != 1 ==> r.freq[i] == 0) && r.total == r.nSingletons
  {
    ResetValid(c, c.initialSize);
  }

  /** installSymbol's doubling loop: the table grows until position `s` fits, the new half zero. */
  function Grow(c: Ctx, s: int): (r: Ctx)
    requires c.maxLength >= 1 && |c.freq| == c.maxLength + 1
    ensures |r.freq| == r.maxLength + 1 && r.maxLength >= s && r.maxLength >= c.maxLength
    ensures r.freq[..|c.freq|] == c.freq && forall i :: |c.freq| <= i < |r.freq| ==> r.freq[i] == 0
    ensures r == c.(maxLength := r.maxLength, freq := r.freq)
    decreases s - c.maxLength
  {
    if s > c.maxLength then
      Grow(c.(freq := c.freq + Zeros(c.maxLength), maxLength := 2 * c.maxLength), s)
    else c
  }

  /** Growing doubles maxLength to the least power of two reaching `s`, and keeps the table valid. */
  lemma {:induction false} GrowValid(c: Ctx, s: int)
    requires Valid(c)
    ensures Grow(c, s).maxLength == LeastPowerOfTwo(s, c.maxLength)
    ensures Valid(Grow(c, s))
    decreases s - c.maxLength
  {
    if s > c.maxLength {
      DoubledValid(c);
      GrowValid(c.(freq := c.freq + Zeros(c.maxLength), maxLength := 2 * c.maxLength), s);
    }
  }

  /** One doubling: the table twice as long, the new half zero, is still valid. */
  lemma DoubledValid(c: Ctx)
    requires Valid(c)
    ensures Valid(c.(freq := c.freq + Zeros(c.maxLength), maxLength := 2 * c.maxLength))
  {
    var c' := c.(freq := c.freq + Zeros(c.maxLength), maxLength := 2 * c.maxLength);
    assert IsPowerOfTwo(2 * c.maxLength) by {
      assert (2 * c.maxLength) / 2 == c.maxLength;
    }
    SumSplit(c'.freq, 1, |c.freq|, |c'.freq|);
    SumPrefix(c.freq, c'.freq, 1, |c.freq|);
    SumZeros(c'.freq, |c.freq|, |c'.freq|);
    if 1 <= c.mps.symbol {
      SumPrefix(c.freq, c'.freq, 1, c.mps.symbol);
    }
    CountEqualSplit(c'.freq, 2, |c.freq|, |c'.freq|, c.incr);
    CountEqualPrefix(c.freq, c'.freq, 2, |c.freq|, c.incr);
    CountEqualNone(c'.freq, |c.freq|, |c'.freq|, c.incr);
    CountEqualSplit(c'.freq, 2, |c.freq|, |c'.freq|, 0);
    CountEqualPrefix(c.freq, c'.freq, 2, |c.freq|, 0);
    CountEqualAll(c'.freq, |c.freq|, |c'.freq|, 0);
  }

  /** The increment after halving: (incr + MIN_INCR) >> 1, but never below MIN_INCR. */
  function HalvedIncr(incr: int): int
  {
    var i := (incr + MinIncr) / 2;
    if i < MinIncr then MinIncr else i
  }

  /** The frequencies after halving, before the escape is set: (f + 1) >> 1 from position 2 on. */
  function HalvedFreqs(f: seq<int>): (h: seq<int>)
    ensures |h| == |f|
  {
    seq(|f|, i requires 0 <= i < |f| => if i < 2 then f[i] else (f[i] + 1) / 2)
  }

  /**
   * halveContext: every frequency from position 2 on becomes (f + 1) >> 1;
   * a dynamic context recounts its singletons (those now equal to the new
   * increment, plus one); the escape takes the singleton count; the total
   * is the new sum; the most frequent symbol's count and position are
   * read again.
   */
  function HalveOf(c: Ctx): Ctx
    requires Shape(c)
  {
    AdjustZeroFreq(Remeasure(HalvedCounts(c), c.mps.symbol))
  }

  /** The halved frequencies, increment, singleton count and total. */
  function HalvedCounts(c: Ctx): Ctx
    requires |c.freq| >= 2
  {
    var incr := HalvedIncr(c.incr);
    var h := HalvedFreqs(c.freq);
    var nS := if c.kind == StaticContext then 0 else incr + incr * CountEqual(h, 2, |h|, incr);
    c.(incr := incr, freq := h[1 := nS], nSingletons := nS, total := Sum(h, 2, |h|) + nS)
  }

  /** halveContext's counts, given the halved increment, the halved sum from position 2 on and the singletons. */
  lemma HalvedCountsIs(c: Ctx, incr: int, t: int, nS: int, r: Ctx)
    requires |c.freq| >= 2 && incr == HalvedIncr(c.incr)
    requires t == Sum(HalvedFreqs(c.freq), 2, |c.freq|)
    requires nS == if c.kind == StaticContext then 0 else incr + incr * CountEqual(HalvedFreqs(c.freq), 2, |c.freq|, incr)
    requires r == c.(incr := incr, freq := HalvedFreqs(c.freq)[1 := nS], nSingletons := nS, total := t + nS)
    ensures r == HalvedCounts(c)
  {
  }

  /** The most frequent symbol's count and position read again from the table, if there is one. */
  function Remeasure(c: Ctx, m: int): Ctx
  {
    if m != -1 && 1 <= m < |c.freq| then c.(mps := Mps(m, Interval(c, m).1 - Interval(c, m).0, Interval(c, m).0))
    else c
  }

  lemma HalvedCountsShape(c: Ctx)
    requires Valid(c)
    ensures var c1 := HalvedCounts(c);
      Shape(c1) && SingletonsCounted(c1) && SymbolsBounded(c1) && c1.freq[1] == c1.nSingletons && c1.mps == c.mps &&
      |c1.freq| == |c.freq| && (forall p :: 2 <= p < |c.freq| ==> c1.freq[p] == (c.freq[p] + 1) / 2) &&
      c1 == c.(incr := c1.incr, freq := c1.freq, nSingletons := c1.nSingletons, total := c1.total)
  {
    var incr := HalvedIncr(c.incr);
    var h := HalvedFreqs(c.freq);
    var nS := if c.kind == StaticContext then 0 else incr + incr * CountEqual(h, 2, |h|, incr);
    var f := h[1 := nS];
    var c1 := HalvedCounts(c);
    CountEqualUpdate(h, 2, |h|, 1, nS, incr);
    CountEqualUpdate(h, 2, |h|, 1, nS, 0);
    HalvedSum(c.freq, h, 2, |h|);
    assert nS >= 0 by {
      SingletonsNonNegative(c1);
    }
    assert Sum(f, 1, |f|) == c1.total by {
      SumSplit(f, 1, 2, |f|);
      SumPrefix(f, h, 2, |f|);
    }
    assert forall i :: c.length < i < |f| ==> f[i] == 0;
  }

  lemma RemeasureConsistent(c: Ctx, m: int)
    requires Shape(c) && (c.mps == NoMps || 1 <= c.mps.symbol < |c.freq|) && m == c.mps.symbol
    ensures MostFrequentConsistent(Remeasure(c, m))
    ensures Remeasure(c, m) == c.(mps := Remeasure(c, m).mps)
  {
  }

  /** Halving keeps a table valid, and computes what halveContext promises. */
  lemma HalveValid(c: Ctx)
    requires Valid(c)
    ensures var r := HalveOf(c);
      Valid(r) && |r.freq| == |c.freq| && r.maxLength == c.maxLength && r.length == c.length &&
      (forall p :: 2 <= p < |c.freq| ==> r.freq[p] == (c.freq[p] + 1) / 2) &&
      r.incr == HalvedIncr(c.incr) && r.incr >= MinIncr &&
      r.kind == c.kind && r.initialized == c.initialized && r.nSymbols == c.nSymbols &&
      r.endOfMessage == c.endOfMessage && r.initialSize == c.initialSize
  {
    HalvedCountsShape(c);
    var c1 := HalvedCounts(c);
    RemeasureConsistent(c1, c.mps.symbol);
    AdjustZeroFreqValid(Remeasure(c1, c.mps.symbol));
  }

  /** What halving brings down while the total is too large: the frequencies from position 2 on, and the increment. */
  function Measure(c: Ctx): int
    requires |c.freq| >= 2
  {
    Sum(c.freq, 2, |c.freq|) + c.incr
  }

  /**
   * While the total exceeds MAX_FREQUENCY, halving makes progress: the
   * total is at most twice the frequencies from 2 on plus `incr`, so they
   * and `incr` together exceed the symbol count, which bounds how much
   * the rounding up of (f + 1) >> 1 can give back.
   */
  lemma HalveDecreases(c: Ctx)
    requires Valid(c) && c.total > MaxFrequency
    ensures 0 <= Measure(HalveOf(c)) < Measure(c)
  {
    HalveValid(c);
    var r := HalveOf(c);
    var n := |c.freq|;
    HalvedSum(c.freq, r.freq, 2, n);
    SumNonNegative(r.freq, 2, n);
    SumSplit(c.freq, 1, 2, n);
    assert Sum(c.freq, 1, 2) == c.freq[1];
    CountedWithinSum(c.freq, 2, n, c.incr);
    assert c.total <= 2 * Sum(c.freq, 2, n) + c.incr;
  }

  /** `while (total > MAX_FREQUENCY) halveContext();` */
  function HalveUntilFits(c: Ctx): Ctx
    requires Valid(c)
    decreases Measure(c)
  {
    if c.total <= MaxFrequency then c
    else
      HalveValid(c);
      HalveDecreases(c);
      HalveUntilFits(HalveOf(c))
  }

  /** Halving knows the symbols it knew: (f + 1) >> 1 is non-zero exactly when f is. */
  lemma HalveKnows(c: Ctx)
    requires Valid(c)
    ensures SameKnown(c, HalveOf(c))
  {
    HalveValid(c);
  }

  /**
   * The halving loop ends, in a valid table whose total is at most
   * MAX_FREQUENCY and that knows the same symbols as before.
   */
  lemma {:induction false} HalveUntilFitsValid(c: Ctx)
    requires Valid(c)
    ensures var r := HalveUntilFits(c);
      Valid(r) && r.total <= MaxFrequency &&
      |r.freq| == |c.freq| && r.length == c.length && r.maxLength == c.maxLength &&
      r.kind == c.kind && r.initialized == c.initialized && r.nSymbols == c.nSymbols &&
      r.endOfMessage == c.endOfMessage && r.initialSize == c.initialSize &&
      SameKnown(c, r)
    decreases Measure(c)
  {
    if c.total > MaxFrequency {
      HalveValid(c);
      HalveDecreases(c);
      HalveKnows(c);
      var h := HalveOf(c);
      HalveUntilFitsValid(h);
      SameKnownTransitive(c, h, HalveUntilFits(h));
    }
  }

  lemma SameKnownTransitive(a: Ctx, b: Ctx, d: Ctx)
    requires SameKnown(a, b) && SameKnown(b, d)
    ensures SameKnown(a, d)
  {
  }

  /** The same positions from 2 on have positive frequencies in both tables: the same symbols are known. */
  ghost predicate SameKnown(a: Ctx, b: Ctx)
  {
    |a.freq| == |b.freq| && forall p :: 2 <= p < |a.freq| ==> (a.freq[p] > 0 <==> b.freq[p] > 0)
  }

  /** The halving loop at the end of an operation. */
  function Settle(c: Ctx, calls: seq<CoderCall>, status: Status): Step
    requires Valid(c)
  {
    Step(HalveUntilFits(c), calls, status)
  }

  /** Whether installSymbol would create a new position for `symbol`. */
  predicate Installs(c: Ctx, symbol: int)
  {
    symbol + 2 > c.length
  }

  /** INCR_SYMBOL_PROB at position `s` with the interval the table gives it. */
  function IncrAt(c: Ctx, s: int, inc: int): Ctx
    requires 1 <= s < |c.freq|
  {
    IncrProb(c, s, Interval(c, s).0, Interval(c, s).1, inc)
  }

  /** A dynamic context counts one more singleton. */
  function CountSingleton(c: Ctx): Ctx
  {
    if c.kind == DynamicContext then c.(nSingletons := c.nSingletons + c.incr) else c
  }

  /** A dynamic context stops counting position `s` as a singleton if its frequency is `incr`. */
  function Unsingle(c: Ctx, s: int): Ctx
    requires 1 <= s < |c.freq|
  {
    if c.kind == DynamicContext && c.freq[s] == c.incr then c.(nSingletons := c.nSingletons - c.incr) else c
  }

  /**
   * A new position `s` above `length`: the length moves up to it, the
   * symbol count grows by one and the symbol gets frequency `incr`, which
   * a dynamic context counts as one more singleton.
   */
  function AddSymbol(g: Ctx, s: int): Ctx
    requires 2 <= s < |g.freq|
  {
    AdjustZeroFreq(CountSingleton(IncrAt(g.(length := s, nSymbols := g.nSymbols + 1), s, g.incr)))
  }

  lemma AddSymbolValid(g: Ctx, s: int)
    requires Valid(g) && g.length < s < |g.freq| && (g.nSymbols + 1) * 2 < MaxFrequency
    ensures var r := AddSymbol(g, s);
      Valid(r) && r.length == s && r.nSymbols == g.nSymbols + 1 && r.freq[s] == g.incr &&
      r.freq == g.freq[s := g.incr][1 := r.nSingletons] &&
      r.nSingletons == (if g.kind == DynamicContext then g.nSingletons + g.incr else 0) &&
      r.maxLength == g.maxLength && r.kind == g.kind && r.initialized == g.initialized && r.incr == g.incr &&
      r.endOfMessage == g.endOfMessage && r.initialSize == g.initialSize
  {
    var g3 := CountSingleton(IncrAt(g.(length := s, nSymbols := g.nSymbols + 1), s, g.incr));
    AddedCounted(g, s);
    AdjustZeroFreqValid(g3);
    var r := AddSymbol(g, s);
    assert r == AdjustZeroFreq(g3);
    assert Valid(r);
  }

  /** The new symbol's frequency and singleton are counted, before the escape follows. */
  lemma AddedCounted(g: Ctx, s: int)
    requires Valid(g) && g.length < s < |g.freq| && (g.nSymbols + 1) * 2 < MaxFrequency
    ensures var g3 := CountSingleton(IncrAt(g.(length := s, nSymbols := g.nSymbols + 1), s, g.incr));
      Shape(g3) && MostFrequentConsistent(g3) && SingletonsCounted(g3) && SymbolsBounded(g3) &&
      g3.freq == g.freq[s := g.incr] &&
      g3.nSingletons == (if g.kind == DynamicContext then g.nSingletons + g.incr else 0) &&
      g3 == g.(length := s, nSymbols := g.nSymbols + 1, freq := g3.freq, total := g3.total,
               nSingletons := g3.nSingletons, mps := g3.mps)
  {
    var g1 := g.(length := s, nSymbols := g.nSymbols + 1);
    var g3 := CountSingleton(IncrAt(g1, s, g.incr));
    IncrProbShape(g1, s, g1.incr);
    assert g.freq[s] == 0;
    assert g3.freq == g.freq[s := g.incr];
    assert SymbolsBounded(g3) by {
      CountEqualUpdate(g.freq, 2, |g.freq|, s, g.incr, 0);
      assert KnownCount(g3.freq) == KnownCount(g.freq) + 1;
    }
    CountEqualUpdate(g.freq, 2, |g.freq|, s, g.incr, g.incr);
    var n := CountEqual(g.freq, 2, |g.freq|, g.incr);
    assert CountEqual(g3.freq, 2, |g3.freq|, g.incr) == n + 1;
    Distribute(g.incr, n);
  }

  /**
   * installSymbol: a symbol at or below `length` counts as installed;
   * otherwise the table grows until it fits, the symbol count is checked
   * against the bound that keeps halving from running forever, and the
   * new symbol gets frequency `incr` as a singleton.
   */
  function InstallOf(c: Ctx, symbol: int): Step
    requires Valid(c)
  {
    var s := symbol + 2;
    if s <= c.length then Step(c, [], Ok)
    else
      GrowValid(c, s);
      var g := Grow(c, s);
      if (g.nSymbols + 1) * 2 >= MaxFrequency then Step(g, [], TooManySymbols)
      else
        AddSymbolValid(g, s);
        Settle(AddSymbol(g, s), [], Ok)
  }

  /**
   * The position whose interval holds `t`, searching from position `s`:
   * the value the decoder's walk down the Moffat tree finds.
   */
  function FindSymbol(f: seq<int>, t: int, s: int): (r: int)
    requires 1 <= s < |f| && Sum(f, 1, s) <= t < Sum(f, 1, |f|)
    ensures s <= r < |f| && Sum(f, 1, r) <= t < Sum(f, 1, r + 1)
    decreases |f| - s
  {
    if t < Sum(f, 1, s + 1) then s else FindSymbol(f, t, s + 1)
  }

  /** The frequency interval of position `s` as kept: from the most frequent symbol's record when it is that symbol. */
  function KeptInterval(c: Ctx, s: int): (int, int)
    requires 1 <= s < |c.freq|
  {
    if c.mps.symbol == s then (c.mps.pos, c.mps.pos + c.mps.count) else Interval(c, s)
  }

  /** The kept interval is the true one. */
  lemma KeptIntervalExact(c: Ctx, s: int)
    requires Valid(c) && 1 <= s < |c.freq|
    ensures KeptInterval(c, s) == Interval(c, s)
  {
  }

  /** MOST_PROB_AT_END: the interval handed to the coder, with the most frequent symbol moved to the top. */
  function Shifted(c: Ctx, s: int, low: int, high: int): (int, int)
  {
    if s > c.mps.symbol then (low - c.mps.count, high - c.mps.count)
    else if s == c.mps.symbol then (c.total - c.mps.count, c.total)
    else (low, high)
  }

  /**
   * The update after coding position `s`: any position but the escape
   * stops being a singleton if it was one and is incremented by `incr`;
   * then the escape frequency follows the singleton count. The interval
   * used is the table's, which is the one the most frequent symbol's
   * record holds (KeptIntervalExact).
   */
  function Coded(c: Ctx, s: int): Ctx
    requires 1 <= s < |c.freq|
  {
    AdjustZeroFreq(if s == 1 then c else IncrAt(Unsingle(c, s), s, c.incr))
  }

  /** Whether `symbol` has a non-zero frequency of its own, so that encode codes it and not the escape. */
  predicate Known(c: Ctx, symbol: int)
    requires Shape(c)
  {
    2 <= symbol + 2 <= c.maxLength && c.freq[symbol + 2] > 0
  }

  lemma CodedValid(c: Ctx, s: int)
    requires Valid(c) && 1 <= s < |c.freq| && (s != 1 ==> c.freq[s] > 0)
    ensures var r := Coded(c, s);
      Valid(r) && r.freq == (if s == 1 then c.freq else c.freq[s := c.freq[s] + c.incr][1 := r.nSingletons]) &&
      r.kind == c.kind && r.length == c.length && r.incr == c.incr && r.maxLength == c.maxLength &&
      r.initialized == c.initialized && r.nSymbols == c.nSymbols && r.endOfMessage == c.endOfMessage &&
      r.initialSize == c.initialSize
  {
    if s == 1 {
      AdjustZeroFreqValid(c);
      assert c.freq[1 := c.nSingletons] == c.freq;
    } else {
      CodedSymbolCounted(c, s);
      AdjustZeroFreqValid(IncrAt(Unsingle(c, s), s, c.incr));
    }
  }

  lemma CodedSymbolCounted(c: Ctx, s: int)
    requires Valid(c) && 2 <= s < |c.freq| && c.freq[s] > 0
    ensures var u := IncrAt(Unsingle(c, s), s, c.incr);
      Shape(u) && MostFrequentConsistent(u) && SingletonsCounted(u) && SymbolsBounded(u) &&
      u == c.(freq := c.freq[s := c.freq[s] + c.incr], total := u.total, nSingletons := u.nSingletons, mps := u.mps)
  {
    var c0 := Unsingle(c, s);
    var u := IncrAt(c0, s, c.incr);
    var f := c.freq[s := c.freq[s] + c.incr];
    PositiveInstalled(c, s);
    IncrProbShape(c0, s, c.incr);
    assert u.freq == f && u.incr == c.incr && u.kind == c.kind && u.nSymbols == c.nSymbols;
    assert u.nSingletons == c0.nSingletons;
    assert SymbolsBounded(u) by {
      CountEqualUpdate(c.freq, 2, |c.freq|, s, c.freq[s] + c.incr, 0);
      assert KnownCount(f) == KnownCount(c.freq);
    }
    assert SingletonsCounted(u) by {
      UnsingleCounted(c, s);
    }
  }

  /** Leaving the singletons, a positive position gaining `incr` changes the count as Unsingle does. */
  lemma UnsingleCounted(c: Ctx, s: int)
    requires Valid(c) && 2 <= s < |c.freq| && c.freq[s] > 0
    ensures var f := c.freq[s := c.freq[s] + c.incr];
      c.kind == DynamicContext ==>
        Unsingle(c, s).nSingletons == c.incr + c.incr * CountEqual(f, 2, |f|, c.incr)
  {
    var n := CountEqual(c.freq, 2, |c.freq|, c.incr);
    CountEqualUpdate(c.freq, 2, |c.freq|, s, c.freq[s] + c.incr, c.incr);
    if c.kind == DynamicContext && c.freq[s] == c.incr {
      Distribute(c.incr, n - 1);
    }
  }

  /** Whether encode finds a non-empty interval for `symbol` itself (positions 1 to maxLength). */
  predicate HasInterval(c: Ctx, symbol: int)
    requires |c.freq| == c.maxLength + 1
  {
    0 < symbol + 2 <= c.maxLength && KeptInterval(c, symbol + 2).0 != KeptInterval(c, symbol + 2).1
  }

  /** The position encode codes for `symbol`: its own, or the escape's. */
  function EncodedPosition(c: Ctx, symbol: int): int
    requires |c.freq| == c.maxLength + 1
  {
    if HasInterval(c, symbol) then symbol + 2 else 1
  }

  /** The interval encode hands the coder for position `s`. */
  function CoderInterval(c: Ctx, s: int): (int, int)
    requires 1 <= s < |c.freq|
  {
    Shifted(c, s, KeptInterval(c, s).0, KeptInterval(c, s).1)
  }

  /**
   * encode(symbol): a symbol with a non-empty interval is coded with it;
   * any other is coded as the escape, which is fatal while no singletons
   * are counted. A position other than the escape is then incremented.
   */
  function EncodeOf(c: Ctx, symbol: int): Step
    requires Valid(c)
  {
    if !c.initialized then Raised(NotInitialized)
    else if !HasInterval(c, symbol) && c.nSingletons == 0 then Raised(ZeroProbabilityNovelSymbol)
    else
      var s := EncodedPosition(c, symbol);
      var call := EncodeCall(CoderInterval(c, s).0, CoderInterval(c, s).1, c.total);
      EncodedPositionCoded(c, symbol);
      CodedValid(c, s);
      Settle(Coded(c, s), [call], if s == 1 then NotKnown else Ok)
  }

  /** The position encode codes has a positive frequency, unless encode is refused. */
  lemma EncodedPositionCoded(c: Ctx, symbol: int)
    requires Valid(c) && (HasInterval(c, symbol) || c.nSingletons != 0)
    ensures 1 <= EncodedPosition(c, symbol) < |c.freq| && c.freq[EncodedPosition(c, symbol)] > 0
    ensures HasInterval(c, symbol) <==> Known(c, symbol) || (symbol == -1 && c.nSingletons > 0)
    ensures EncodedPosition(c, symbol) == if Known(c, symbol) then symbol + 2 else 1
  {
    if 0 < symbol + 2 <= c.maxLength {
      KeptIntervalExact(c, symbol + 2);
    }
  }

  /** encodeEndOfMessage */
  function EncodeEndOfMessageOf(c: Ctx): Step
    requires Valid(c)
  {
    if !c.initialized then Raised(NotInitialized) else EncodeOf(c, c.endOfMessage)
  }

  /**
   * decode, given the target the coder answers to `arithmeticDecodeTarget(total)`:
   * a target in the top `mostFreqCount` values is the most frequent symbol;
   * any other is moved past the most frequent symbol's interval when it
   * lies above it and looked up.
   */
  function DecodeOf(c: Ctx, target: int): Step
    requires Valid(c) && (c.initialized ==> 0 <= target < c.total)
  {
    if !c.initialized then Raised(NotInitialized)
    else
      var (s, call) := DecodeChoice(c, target);
      CodedValid(c, s);
      Settle(Coded(c, s), [DecodeTargetCall(c.total), call], if s == 1 then NotKnown else Symbol(s - 2))
  }

  /** The position decode finds for `target` and the interval it hands back to the coder. */
  function DecodeChoice(c: Ctx, target: int): (r: (int, CoderCall))
    requires Valid(c) && 0 <= target < c.total
    ensures 1 <= r.0 < |c.freq| && c.freq[r.0] > 0
  {
    if target >= c.total - c.mps.count then
      (c.mps.symbol, DecodeCall(c.total - c.mps.count, c.total, c.total))
    else SlowDecode(c, target)
  }

  /**
   * The slow path of decode: the position whose interval holds the moved
   * target, and the interval handed back to the coder, shifted down when
   * it lies above the most frequent symbol's.
   */
  function SlowDecode(c: Ctx, target: int): (r: (int, CoderCall))
    requires Valid(c) && 0 <= target < c.total - c.mps.count
    ensures 1 <= r.0 < |c.freq| && c.freq[r.0] > 0
  {
    var moved := if target >= c.mps.pos then target + c.mps.count else target;
    RealTargetInRange(c, target);
    var s := FindSymbol(c.freq, moved, 1);
    var low := Interval(c, s).0;
    var high := Interval(c, s).1;
    if low >= c.mps.pos then (s, DecodeCall(low - c.mps.count, high - c.mps.count, c.total))
    else (s, DecodeCall(low, high, c.total))
  }

  /** decode's slow path answers the position the moved target falls in, and the call for its interval. */
  lemma SlowDecodeIs(c: Ctx, target: int, moved: int, s: int, call: CoderCall)
    requires Valid(c) && 0 <= target < c.total - c.mps.count
    requires moved == (if target >= c.mps.pos then target + c.mps.count else target)
    requires Sum(c.freq, 1, 1) <= moved < Sum(c.freq, 1, |c.freq|) && s == FindSymbol(c.freq, moved, 1)
    requires call == if Interval(c, s).0 >= c.mps.pos
      then DecodeCall(Interval(c, s).0 - c.mps.count, Interval(c, s).1 - c.mps.count, c.total)
      else DecodeCall(Interval(c, s).0, Interval(c, s).1, c.total)
    ensures SlowDecode(c, target) == (s, call)
  {
  }

  /**
   * decode's update once position s != 1 is found at [low, high): a
   * frequency of `incr` stops counting as a singleton, s gains `incr`.
   */
  lemma DecodedCounted(c: Ctx, s: int, low: int, high: int, r: Ctx)
    requires 1 < s < |c.freq| && (low, high) == Interval(c, s)
    requires r == c.(freq := c.freq[s := c.freq[s] + c.incr], total := c.total + c.incr,
      mps := IncrMps(c.mps, s, low, high, c.incr),
      nSingletons := if c.kind == DynamicContext && high - low == c.incr then c.nSingletons - c.incr else c.nSingletons)
    ensures r == IncrAt(Unsingle(c, s), s, c.incr)
  {
  }

  /** The moved target lies inside the table. */
  lemma RealTargetInRange(c: Ctx, target: int)
    requires Valid(c) && 0 <= target < c.total - c.mps.count
    ensures var moved := if target >= c.mps.pos then target + c.mps.count else target;
      Sum(c.freq, 1, 1) <= moved < Sum(c.freq, 1, |c.freq|)
  {
  }

  // ---------------------------------------------------------------------
  // The decoder retraces the encoder
  // ---------------------------------------------------------------------

  lemma SumMonotone(f: seq<int>, lo: int, a: int, b: int)
    requires 0 <= lo <= a <= b <= |f| && forall i :: 0 <= i < |f| ==> f[i] >= 0
    ensures Sum(f, lo, a) <= Sum(f, lo, b)
  {
    SumSplit(f, lo, a, b);
    SumNonNegative(f, a, b);
  }

  /** The search finds the one position whose cumulative range holds the target. */
  lemma {:induction false} FindSymbolUnique(f: seq<int>, t: int, k: int, s: int)
    requires 1 <= k <= s < |f| && forall i :: 0 <= i < |f| ==> f[i] >= 0
    requires Sum(f, 1, k) <= t && Sum(f, 1, s) <= t < Sum(f, 1, s + 1)
    requires t < Sum(f, 1, |f|)
    ensures FindSymbol(f, t, k) == s
    decreases s - k
  {
    if k < s {
      SumMonotone(f, 1, k + 1, s);
      FindSymbolUnique(f, t, k + 1, s);
    }
  }

  /**
   * The interval handed to the coder for a position with a positive
   * frequency is non-empty, as wide as the frequency, and inside [0, total).
   */
  lemma CoderIntervalBounds(c: Ctx, s: int)
    requires Valid(c) && 1 <= s < |c.freq| && c.freq[s] > 0
    ensures 0 <= CoderInterval(c, s).0 < CoderInterval(c, s).1 <= c.total
    ensures CoderInterval(c, s).1 - CoderInterval(c, s).0 == c.freq[s]
  {
    KeptIntervalExact(c, s);
    var m := c.mps.symbol;
    SumNonNegative(c.freq, 1, s);
    SumMonotone(c.freq, 1, s + 1, |c.freq|);
    if 1 <= m {
      SumNonNegative(c.freq, 1, m);
      SumMonotone(c.freq, 1, m + 1, |c.freq|);
      if m < s {
        SumMonotone(c.freq, 1, m + 1, s);
      }
    }
  }

  /** A target inside the coder interval of a position with a positive frequency decodes to that position and interval. */
  lemma DecodeChoiceOfCoderInterval(c: Ctx, s: int, t: int)
    requires Valid(c) && 1 <= s < |c.freq| && c.freq[s] > 0
    requires CoderInterval(c, s).0 <= t < CoderInterval(c, s).1
    ensures 0 <= t < c.total
    ensures DecodeChoice(c, t) == (s, DecodeCall(CoderInterval(c, s).0, CoderInterval(c, s).1, c.total))
  {
    CoderIntervalBounds(c, s);
    if s < c.mps.symbol {
      DecodeBelowMostFrequent(c, s, t);
    } else if c.mps.symbol < s {
      DecodeAboveMostFrequent(c, s, t);
    }
  }

  lemma DecodeBelowMostFrequent(c: Ctx, s: int, t: int)
    requires Valid(c) && 1 <= s < c.mps.symbol && c.freq[s] > 0
    requires Interval(c, s).0 <= t < Interval(c, s).1
    ensures 0 <= t < c.total - c.mps.count && t < c.mps.pos && Interval(c, s).0 < c.mps.pos
    ensures SlowDecode(c, t).0 == s
  {
    var f := c.freq;
    SumNonNegative(f, 1, s);
    SumMonotone(f, 1, s + 1, c.mps.symbol);
    SumMonotone(f, 1, c.mps.symbol + 1, |f|);
    SumMonotone(f, 1, s + 1, |f|);
    FindSymbolUnique(f, t, 1, s);
  }

  lemma DecodeAboveMostFrequent(c: Ctx, s: int, t: int)
    requires Valid(c) && c.mps.symbol < s < |c.freq| && c.freq[s] > 0
    requires Interval(c, s).0 - c.mps.count <= t < Interval(c, s).1 - c.mps.count
    ensures 0 <= t < c.total - c.mps.count && t >= c.mps.pos && Interval(c, s).0 >= c.mps.pos
    ensures SlowDecode(c, t).0 == s
  {
    var f := c.freq;
    var m := c.mps.symbol;
    if 1 <= m {
      SumNonNegative(f, 1, m);
      SumMonotone(f, 1, m + 1, s);
    }
    SumNonNegative(f, 1, s);
    SumMonotone(f, 1, s + 1, |f|);
    FindSymbolUnique(f, t + c.mps.count, 1, s);
  }

  /** Every target decodes to a position whose coder interval holds it, and that interval is what decode hands back. */
  lemma DecodeChoiceEncloses(c: Ctx, t: int)
    requires Valid(c) && 0 <= t < c.total
    ensures var p := DecodeChoice(c, t).0;
      CoderInterval(c, p).0 <= t < CoderInterval(c, p).1 &&
      DecodeChoice(c, t).1 == DecodeCall(CoderInterval(c, p).0, CoderInterval(c, p).1, c.total)
  {
    var p := DecodeChoice(c, t).0;
    var m := c.mps.symbol;
    var f := c.freq;
    KeptIntervalExact(c, p);
    if t < c.total - c.mps.count {
      var moved := if t >= c.mps.pos then t + c.mps.count else t;
      assert Sum(f, 1, p) <= moved < Sum(f, 1, p + 1);
      if 1 <= m {
        if p < m {
          SumMonotone(f, 1, p + 1, m);
        } else if m < p {
          SumMonotone(f, 1, m + 1, p);
        }
      }
    }
  }

  /** The outcome a decoder reports for the symbol an encoder coded with status `st`. */
  function DecodedStatus(st: Status, symbol: int): Status
  {
    if st == Ok then Symbol(symbol) else st
  }

  /**
   * Encoding `symbol` hands the coder one non-empty interval in [0, total);
   * decoding any target in it hands back the same interval, reaches the
   * same state, and reports the symbol (or the escape, if the encoder
   * coded the escape).
   */
  lemma EncodeThenDecode(c: Ctx, symbol: int, target: int)
    requires Valid(c) && c.initialized && EncodeOf(c, symbol).Step?
    ensures var e := EncodeOf(c, symbol);
      |e.calls| == 1 && e.calls[0].EncodeCall? && e.calls[0].total == c.total &&
      0 <= e.calls[0].low < e.calls[0].high <= c.total &&
      (e.calls[0].low <= target < e.calls[0].high ==>
        DecodeOf(c, target) ==
          Step(e.ctx, [DecodeTargetCall(c.total), DecodeCall(e.calls[0].low, e.calls[0].high, c.total)],
               DecodedStatus(e.status, symbol)))
  {
    EncodeCallsShape(c, symbol);
    EncodedTargetDecodes(c, symbol, target);
  }

  /** encode hands the coder one non-empty interval inside [0, total). */
  lemma EncodeCallsShape(c: Ctx, symbol: int)
    requires Valid(c) && c.initialized && EncodeOf(c, symbol).Step?
    ensures var e := EncodeOf(c, symbol);
      |e.calls| == 1 && e.calls[0].EncodeCall? && e.calls[0].total == c.total &&
      0 <= e.calls[0].low < e.calls[0].high <= c.total
  {
    EncodedPositionCoded(c, symbol);
    CoderIntervalBounds(c, EncodedPosition(c, symbol));
  }

  /** Any target inside the interval encode hands the coder decodes to what encode coded. */
  lemma EncodedTargetDecodes(c: Ctx, symbol: int, target: int)
    requires Valid(c) && c.initialized && EncodeOf(c, symbol).Step?
    ensures var e := EncodeOf(c, symbol);
      |e.calls| == 1 && e.calls[0].EncodeCall? &&
      (e.calls[0].low <= target < e.calls[0].high ==>
        0 <= target < c.total &&
        DecodeOf(c, target) ==
          Step(e.ctx, [DecodeTargetCall(c.total), DecodeCall(e.calls[0].low, e.calls[0].high, c.total)],
               DecodedStatus(e.status, symbol)))
  {
    EncodeIsCoded(c, symbol);
    var s := EncodedPosition(c, symbol);
    if CoderInterval(c, s).0 <= target < CoderInterval(c, s).1 {
      CodedTargetDecodes(c, s, target);
    }
  }

  /** encode codes its symbol's position (or the escape's) with that position's coder interval. */
  lemma EncodeIsCoded(c: Ctx, symbol: int)
    requires Valid(c) && c.initialized && EncodeOf(c, symbol).Step?
    ensures var s := EncodedPosition(c, symbol);
      1 <= s < |c.freq| && c.freq[s] > 0 && (s != 1 ==> symbol == s - 2) && Valid(Coded(c, s)) &&
      EncodeOf(c, symbol) == Settle(Coded(c, s), [EncodeCall(CoderInterval(c, s).0, CoderInterval(c, s).1, c.total)],
                                    if s == 1 then NotKnown else Ok)
  {
    EncodedPositionCoded(c, symbol);
    CodedValid(c, EncodedPosition(c, symbol));
  }

  /** A target inside a position's coder interval decodes to that position, coded as encode codes it. */
  lemma CodedTargetDecodes(c: Ctx, s: int, target: int)
    requires Valid(c) && c.initialized && 1 <= s < |c.freq| && c.freq[s] > 0
    requires CoderInterval(c, s).0 <= target < CoderInterval(c, s).1
    ensures 0 <= target < c.total && Valid(Coded(c, s))
    ensures DecodeOf(c, target)
         == Settle(Coded(c, s), [DecodeTargetCall(c.total), DecodeCall(CoderInterval(c, s).0, CoderInterval(c, s).1, c.total)],
                   if s == 1 then NotKnown else Symbol(s - 2))
  {
    CodedValid(c, s);
    DecodeChoiceOfCoderInterval(c, s, target);
    DecodeOfChoice(c, target);
  }

  /** decode settles the table coded at the position its choice names, with the interval of that choice. */
  lemma DecodeOfChoice(c: Ctx, target: int)
    requires Valid(c) && c.initialized && 0 <= target < c.total
    ensures var ch := DecodeChoice(c, target);
      Valid(Coded(c, ch.0)) &&
      DecodeOf(c, target) == Settle(Coded(c, ch.0), [DecodeTargetCall(c.total), ch.1], if ch.0 == 1 then NotKnown else Symbol(ch.0 - 2))
  {
    CodedValid(c, DecodeChoice(c, target).0);
  }

  /**
   * Decoding any target in [0, total) hands back an interval that holds
   * it; when decode reports a symbol, encoding that symbol reaches the same
   * state with the same interval, and when it reports the escape, encoding
   * any symbol the table does not know does.
   */
  lemma DecodeThenEncode(c: Ctx, target: int, symbol: int)
    requires Valid(c) && c.initialized && 0 <= target < c.total
    ensures var d := DecodeOf(c, target);
      d.Step? && |d.calls| == 2 && d.calls[0] == DecodeTargetCall(c.total) && d.calls[1].DecodeCall? &&
      d.calls[1].low <= target < d.calls[1].high &&
      (d.status.Symbol? ==>
         (Known(c, d.status.value) &&
          EncodeOf(c, d.status.value) == Step(d.ctx, [EncodeCall(d.calls[1].low, d.calls[1].high, c.total)], Ok))) &&
      (d.status == NotKnown && !Known(c, symbol) ==>
         EncodeOf(c, symbol) == Step(d.ctx, [EncodeCall(d.calls[1].low, d.calls[1].high, c.total)], NotKnown))
  {
    DecodeCallsShape(c, target);
    DecodedSymbolEncodes(c, target);
    if !Known(c, symbol) {
      DecodedEscapeEncodes(c, target, symbol);
    }
  }

  /** decode takes one target and hands back one interval that holds it. */
  lemma DecodeCallsShape(c: Ctx, target: int)
    requires Valid(c) && c.initialized && 0 <= target < c.total
    ensures var d := DecodeOf(c, target);
      d.Step? && |d.calls| == 2 && d.calls[0] == DecodeTargetCall(c.total) && d.calls[1].DecodeCall? &&
      d.calls[1].low <= target < d.calls[1].high
  {
    DecodeChoiceEncloses(c, target);
  }

  /** A decoded symbol is known. */
  lemma DecodedSymbolKnown(c: Ctx, target: int)
    requires Valid(c) && c.initialized && 0 <= target < c.total
    ensures var d := DecodeOf(c, target);
      d.Step? && (d.status.Symbol? ==> Known(c, d.status.value))
  {
    var p := DecodeChoice(c, target).0;
    if p != 1 {
      EncodedPositionCoded(c, p - 2);
    }
  }

  /** Encoding a decoded symbol gives decode's state and interval. */
  lemma DecodedSymbolEncodes(c: Ctx, target: int)
    requires Valid(c) && c.initialized && 0 <= target < c.total
    ensures var d := DecodeOf(c, target);
      d.Step? && |d.calls| == 2 && d.calls[1].DecodeCall? && (d.status.Symbol? ==> Known(c, d.status.value)) &&
      (d.status.Symbol? ==>
          EncodeOf(c, d.status.value) == Step(d.ctx, [EncodeCall(d.calls[1].low, d.calls[1].high, c.total)], Ok))
  {
    DecodeChoiceEncloses(c, target);
    DecodedSymbolKnown(c, target);
    var p := DecodeChoice(c, target).0;
    if p != 1 {
      EncodedPositionCoded(c, p - 2);
    }
  }

  /** A decoded escape is what encoding any unknown symbol gives. */
  lemma DecodedEscapeEncodes(c: Ctx, target: int, symbol: int)
    requires Valid(c) && c.initialized && 0 <= target < c.total && !Known(c, symbol)
    ensures var d := DecodeOf(c, target);
      d.Step? && |d.calls| == 2 && d.calls[1].DecodeCall? &&
      (d.status == NotKnown ==>
         EncodeOf(c, symbol) == Step(d.ctx, [EncodeCall(d.calls[1].low, d.calls[1].high, c.total)], NotKnown))
  {
    DecodeChoiceEncloses(c, target);
    var p := DecodeChoice(c, target).0;
    assert c.nSingletons == c.freq[1];
    if p == 1 {
      EncodedPositionCoded(c, symbol);
    } else {
      EncodedPositionCoded(c, p - 2);
    }
  }

  // ---------------------------------------------------------------------
  // What each operation promises
  // ---------------------------------------------------------------------

  /**
   * installSymbol: a symbol at or below `length` leaves the table as it
   * is; any other makes maxLength the least power of two (from the old
   * one up) that holds it, and then either refuses with TooManySymbols,
   * the grown table otherwise unchanged, exactly when one more symbol
   * would reach half of MAX_FREQUENCY, or installs it: the length
   * reaches it, one more symbol is counted, it becomes known and every
   * symbol known before stays known.
   */
  lemma InstallOutcome(c: Ctx, symbol: int)
    requires Valid(c)
    ensures var r := InstallOf(c, symbol);
      r.Step? && r.calls == [] && Valid(r.ctx) &&
      r.ctx.kind == c.kind && r.ctx.initialized == c.initialized && r.ctx.endOfMessage == c.endOfMessage &&
      (!Installs(c, symbol) ==> r.ctx == c && r.status == Ok) &&
      (Installs(c, symbol) ==>
        r.ctx.maxLength == LeastPowerOfTwo(symbol + 2, c.maxLength) &&
        (r.status == TooManySymbols <==> (c.nSymbols + 1) * 2 >= MaxFrequency) &&
        (r.status == TooManySymbols ==>
          r.ctx.freq[..|c.freq|] == c.freq && r.ctx.nSymbols == c.nSymbols && r.ctx.length == c.length) &&
        (r.status != TooManySymbols ==>
          r.ctx.length == symbol + 2 && r.ctx.nSymbols == c.nSymbols + 1 && Known(r.ctx, symbol) &&
          (forall p :: 2 <= p < |c.freq| && c.freq[p] > 0 ==> r.ctx.freq[p] > 0) &&
          r.status == Ok && r.ctx.total <= MaxFrequency))
  {
    if Installs(c, symbol) {
      if (c.nSymbols + 1) * 2 < MaxFrequency {
        InstallAdded(c, symbol);
      } else {
        InstallRefused(c, symbol);
      }
    }
  }

  /** The refusing branch of installSymbol: the grown table, the symbol count and the old frequencies as they were. */
  lemma InstallRefused(c: Ctx, symbol: int)
    requires Valid(c) && Installs(c, symbol) && (c.nSymbols + 1) * 2 >= MaxFrequency
    ensures var r := InstallOf(c, symbol);
      r.Step? && r.calls == [] && Valid(r.ctx) && r.status == TooManySymbols &&
      r.ctx.kind == c.kind && r.ctx.initialized == c.initialized && r.ctx.endOfMessage == c.endOfMessage &&
      r.ctx.maxLength == LeastPowerOfTwo(symbol + 2, c.maxLength) &&
      r.ctx.freq[..|c.freq|] == c.freq && r.ctx.nSymbols == c.nSymbols && r.ctx.length == c.length
  {
    var s := symbol + 2;
    GrowValid(c, s);
    assert InstallOf(c, symbol) == Step(Grow(c, s), [], TooManySymbols);
  }

  /** The installing branch of installSymbol, in the terms InstallOutcome states it. */
  lemma InstallAdded(c: Ctx, symbol: int)
    requires Valid(c) && Installs(c, symbol) && (c.nSymbols + 1) * 2 < MaxFrequency
    ensures var r := InstallOf(c, symbol);
      r.Step? && r.calls == [] && Valid(r.ctx) && r.status == Ok && r.ctx.total <= MaxFrequency &&
      r.ctx.kind == c.kind && r.ctx.initialized == c.initialized && r.ctx.endOfMessage == c.endOfMessage &&
      r.ctx.maxLength == LeastPowerOfTwo(symbol + 2, c.maxLength) &&
      r.ctx.length == symbol + 2 && r.ctx.nSymbols == c.nSymbols + 1 && Known(r.ctx, symbol) &&
      (forall p :: 2 <= p < |c.freq| && c.freq[p] > 0 ==> r.ctx.freq[p] > 0)
  {
    var s := symbol + 2;
    GrowValid(c, s);
    var g := Grow(c, s);
    InstallAdds(c, g, s);
    assert InstallOf(c, symbol) == Settle(AddSymbol(g, s), [], Ok);
  }

  lemma InstallAdds(c: Ctx, g: Ctx, s: int)
    requires Valid(c) && c.length < s && g == Grow(c, s) && Valid(g) && (g.nSymbols + 1) * 2 < MaxFrequency
    requires g.maxLength >= s && g.freq[..|c.freq|] == c.freq && g == c.(maxLength := g.maxLength, freq := g.freq)
    ensures Valid(AddSymbol(g, s))
    ensures var r := Settle(AddSymbol(g, s), [], Ok);
      r.Step? && r.calls == [] && Valid(r.ctx) && r.ctx.maxLength == g.maxLength &&
      r.ctx.kind == c.kind && r.ctx.initialized == c.initialized && r.ctx.endOfMessage == c.endOfMessage &&
      r.ctx.length == s && r.ctx.nSymbols == c.nSymbols + 1 && Known(r.ctx, s - 2) &&
      (forall p :: 2 <= p < |c.freq| && c.freq[p] > 0 ==> r.ctx.freq[p] > 0) &&
      r.status == Ok && r.ctx.total <= MaxFrequency
  {
    var a := AddSymbol(g, s);
    AddSymbolValid(g, s);
    SettleOutcome(a, [], Ok);
    forall p | 2 <= p < |c.freq| && c.freq[p] > 0
      ensures a.freq[p] > 0
    {
      assert g.freq[p] == g.freq[..|c.freq|][p];
    }
  }

  /** Installing a symbol above `length` while the count is clear of its bound makes it known and keeps every known symbol. */
  lemma InstallNew(c: Ctx, symbol: int)
    requires Valid(c) && Installs(c, symbol) && (c.nSymbols + 1) * 2 < MaxFrequency
    ensures var r := InstallOf(c, symbol);
      r.Step? && Valid(r.ctx) && r.ctx.length == symbol + 2 && r.ctx.nSymbols == c.nSymbols + 1 &&
      Known(r.ctx, symbol) && r.ctx.maxLength >= c.maxLength &&
      (forall v :: Known(c, v) ==> Known(r.ctx, v)) &&
      r.ctx.kind == c.kind && r.ctx.initialized == c.initialized && r.ctx.endOfMessage == c.endOfMessage &&
      r.status == Ok && r.ctx.total <= MaxFrequency
  {
    InstallAdded(c, symbol);
    var r := InstallOf(c, symbol);
    forall v | Known(c, v)
      ensures Known(r.ctx, v)
    {
      assert c.freq[v + 2] > 0;
    }
  }

  /** The halving loop ends in a valid table that knows the same symbols, its total at most MAX_FREQUENCY, the status kept. */
  lemma SettleOutcome(c: Ctx, calls: seq<CoderCall>, status: Status)
    requires Valid(c)
    ensures var r := Settle(c, calls, status);
      r.Step? && r.calls == calls && Valid(r.ctx) && SameKnown(c, r.ctx) &&
      r.ctx.length == c.length && r.ctx.maxLength == c.maxLength && r.ctx.nSymbols == c.nSymbols &&
      r.ctx.kind == c.kind && r.ctx.initialized == c.initialized && r.ctx.endOfMessage == c.endOfMessage &&
      r.ctx.initialSize == c.initialSize &&
      r.status == status && r.ctx.total <= MaxFrequency
  {
    HalveUntilFitsValid(c);
  }

  /**
   * encode: refused before initialisation, and refused when the symbol
   * has no interval and no singletons give the escape one; otherwise
   * the result is a valid table that knows the same symbols, whose total
   * halving has brought to at most MAX_FREQUENCY, and the status is Ok
   * for a known symbol and NotKnown for any other.
   */
  lemma EncodeOutcome(c: Ctx, symbol: int)
    requires Valid(c)
    ensures var r := EncodeOf(c, symbol);
      (!c.initialized ==> r == Raised(NotInitialized)) &&
      (c.initialized ==> (r == Raised(ZeroProbabilityNovelSymbol) <==> !Known(c, symbol) && c.nSingletons == 0)) &&
      (r.Step? ==>
        Valid(r.ctx) && SameKnown(c, r.ctx) && r.ctx.length == c.length && r.ctx.nSymbols == c.nSymbols &&
        r.ctx.kind == c.kind && r.ctx.initialized && r.ctx.endOfMessage == c.endOfMessage &&
        r.status == (if Known(c, symbol) then Ok else NotKnown) && r.ctx.total <= MaxFrequency)
  {
    if c.initialized {
      if 0 < symbol + 2 <= c.maxLength {
        KeptIntervalExact(c, symbol + 2);
      }
      if HasInterval(c, symbol) || c.nSingletons != 0 {
        EncodedPositionCoded(c, symbol);
        var s := EncodedPosition(c, symbol);
        CodedValid(c, s);
        SettleOutcome(Coded(c, s), [EncodeCall(CoderInterval(c, s).0, CoderInterval(c, s).1, c.total)],
                      if s == 1 then NotKnown else Ok);
      }
    }
  }

  /**
   * decode: refused before initialisation; otherwise the result is a
   * valid table that knows the same symbols, whose total halving has
   * brought to at most MAX_FREQUENCY, and the status is a known symbol or
   * NotKnown.
   */
  lemma DecodeOutcome(c: Ctx, target: int)
    requires Valid(c) && (c.initialized ==> 0 <= target < c.total)
    ensures var r := DecodeOf(c, target);
      (!c.initialized ==> r == Raised(NotInitialized)) &&
      (r.Step? ==>
        Valid(r.ctx) && SameKnown(c, r.ctx) && r.ctx.length == c.length && r.ctx.nSymbols == c.nSymbols &&
        r.ctx.kind == c.kind && r.ctx.initialized && r.ctx.endOfMessage == c.endOfMessage &&
        (r.status.Symbol? ==> Known(c, r.status.value)) &&
        (r.status.Symbol? || r.status == NotKnown) && r.ctx.total <= MaxFrequency)
  {
    if c.initialized {
      var s := DecodeChoice(c, target).0;
      CodedValid(c, s);
      SettleOutcome(Coded(c, s), [DecodeTargetCall(c.total), DecodeChoice(c, target).1],
                    if s == 1 then NotKnown else Symbol(s - 2));
    }
  }

  /** installSymbol on i, i + 1, ..., n - 1, each result ignored. */
  function InstallRange(c: Ctx, i: int, n: int): (r: Ctx)
    requires Valid(c)
    ensures Valid(r) && r.endOfMessage == c.endOfMessage && r.kind == c.kind && r.initialized == c.initialized
    decreases n - i
  {
    if i >= n then c
    else
      InstallOutcome(c, i);
      InstallRange(InstallOf(c, i).ctx, i + 1, n)
  }

  /**
   * initialize: installs every symbol below the end-of-message symbol,
   * ignoring the results, then the end-of-message symbol itself, which
   * is fatal if there are too many symbols; the context is then
   * initialised, and the end-of-message symbol is its last fixed symbol.
   */
  function InitializeOf(c: Ctx): (r: Step)
    requires Valid(c)
    ensures r.Step? ==> Valid(r.ctx)
  {
    var c1 := InstallRange(c, 0, c.endOfMessage);
    var r := InstallOf(c1, c.endOfMessage);
    InstallOutcome(c1, c.endOfMessage);
    if r.status == TooManySymbols then Raised(TooManyInitialSymbols)
    else Step(r.ctx.(initialized := true), [], Ok)
  }

  /** initialize after its loop: the end-of-message symbol's installation decides the outcome. */
  lemma InitializeAfter(c: Ctx, c1: Ctx, st: Status, c2: Ctx)
    requires Valid(c) && c1 == InstallRange(c, 0, c.endOfMessage)
    requires InstallOf(c1, c.endOfMessage) == Step(c2, [], st)
    ensures st == TooManySymbols ==> InitializeOf(c) == Raised(TooManyInitialSymbols)
    ensures st != TooManySymbols ==> InitializeOf(c) == Step(c2.(initialized := true), [], Ok) && Valid(c2.(initialized := true))
  {
  }

  /** Symbols 0 to n - 1 are known. */
  ghost predicate KnowsBelow(c: Ctx, n: int)
    requires Shape(c)
  {
    forall v :: 0 <= v < n ==> Known(c, v)
  }

  /**
   * Installing i, ..., n - 1 into a table that has installed exactly the
   * symbols below i, while the symbol count stays clear of its bound,
   * installs each of them in turn.
   */
  lemma {:induction false} InstallRangeInstalls(c: Ctx, i: int, n: int)
    requires Valid(c) && 0 <= i <= n && c.length == i + 1 && c.nSymbols == i + 1 && KnowsBelow(c, i)
    requires (n + 1) * 2 < MaxFrequency
    ensures var r := InstallRange(c, i, n);
      r.length == n + 1 && r.nSymbols == n + 1 && KnowsBelow(r, n)
    decreases n - i
  {
    if i < n {
      var r := InstallOf(c, i).ctx;
      InstallNextKnows(c, i, n);
      assert InstallRange(c, i, n) == InstallRange(r, i + 1, n);
      InstallRangeInstalls(r, i + 1, n);
    }
  }

  /** One step of the install loop: symbol i becomes known, with the symbols below it. */
  lemma InstallNextKnows(c: Ctx, i: int, n: int)
    requires Valid(c) && 0 <= i < n && c.length == i + 1 && c.nSymbols == i + 1 && KnowsBelow(c, i)
    requires (n + 1) * 2 < MaxFrequency
    ensures var r := InstallOf(c, i).ctx;
      Valid(r) && r.length == i + 2 && r.nSymbols == i + 2 && KnowsBelow(r, i + 1)
  {
    InstallNew(c, i);
    var r := InstallOf(c, i);
    forall v | 0 <= v < i + 1
      ensures Known(r.ctx, v)
    {
      if v < i {
        assert Known(c, v);
      }
    }
  }

  /**
   * On a table with only the escape installed, as setType and
   * purgeContext leave it, initialize succeeds whenever the symbols it
   * installs stay clear of the symbol bound: every symbol from 0 to the
   * end-of-message symbol is then known, and the context is initialised.
   */
  lemma InitializeFresh(c: Ctx)
    requires Valid(c) && c.length == 1 && c.nSymbols == 1 && c.endOfMessage >= 0
    requires (c.endOfMessage + 2) * 2 < MaxFrequency
    ensures var r := InitializeOf(c);
      r.Step? && r.ctx.initialized && r.ctx.endOfMessage == c.endOfMessage &&
      r.ctx.nSymbols == c.endOfMessage + 2 && KnowsBelow(r.ctx, c.endOfMessage + 1)
  {
    var n := c.endOfMessage;
    assert KnowsBelow(c, 0);
    InstallRangeInstalls(c, 0, n);
    var c1 := InstallRange(c, 0, n);
    InstallNew(c1, n);
    var r := InstallOf(c1, n);
    assert KnowsBelow(r.ctx, n + 1) by {
      forall v | 0 <= v < n + 1
        ensures Known(r.ctx, v)
      {
        if v < n {
          assert Known(c1, v);
        }
      }
    }
    var d := r.ctx.(initialized := true);
    assert InitializeOf(c).ctx == d;
    assert KnowsBelow(d, n + 1) by {
      forall v | 0 <= v < n + 1
        ensures Known(d, v)
      {
        assert Known(r.ctx, v);
      }
    }
  }
}
