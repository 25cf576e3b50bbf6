/**
 * The context object itself: the fields of a frequency table updated in
 * place, the frequencies held as a Moffat tree in an array that is
 * reallocated when the table grows, and the calls made into the
 * arithmetic coder appended to a log. The frequencies the tree adds up
 * are a ghost field; every method leaves the state the matching function
 * of module Contexts computes from the state before it, and the tree
 * array the Moffat tree of the new frequencies.
 */
module ContextObject {
  import opened Contexts
  import opened MoffatTrees

  /** What a method of the context answers: a status, or the error it raises. */
  datatype Reply = Done(status: Status) | Failed(error: ContextError)

  function ReplyOf(s: Step): Reply
  {
    if s.Step? then Done(s.status) else Failed(s.error)
  }

  /** The call encode makes into the coder for position `s`. */
  function EncodeCallOf(c: Ctx, s: int): CoderCall
    requires 1 <= s < |c.freq|
  {
    EncodeCall(CoderInterval(c, s).0, CoderInterval(c, s).1, c.total)
  }

  /** decode's outcome in terms of the position it chooses. */
  lemma DecodeSettles(c: Ctx, target: int, s: int, call: CoderCall)
    requires Valid(c) && c.initialized && 0 <= target < c.total && (s, call) == DecodeChoice(c, target)
    ensures 1 <= s < |c.freq| && Valid(Coded(c, s))
    ensures DecodeOf(c, target) ==
      Step(HalveUntilFits(Coded(c, s)), [DecodeTargetCall(c.total), call], if s == 1 then NotKnown else Symbol(s - 2))
  {
    CodedValid(c, s);
  }

  /** Two calls appended one after the other. */
  lemma AppendedTwo(made: seq<CoderCall>, a: CoderCall, b: CoderCall)
    ensures made + [a] + [b] == made + [a, b]
  {
  }

  /** The fields before the constructor sets them; setType replaces all but `initialized`. */
  const Blank: Ctx := Ctx(StaticContext, 2, 2, 1, 1, 0, MinIncr, 0, NoMps, [0, 0, 0], 0, false)


  class Context {
    var kind: ContextType
    var initialSize: int
    var maxLength: int
    var length: int
    var nSymbols: int
    var total: int
    var incr: int
    var nSingletons: int
    var mps: Mps
    /** The Moffat tree of the frequencies of positions 0 to maxLength. */
    var tree: array<int>
    /** freq[p] is the frequency of position p: what the tree adds up. */
    ghost var freq: seq<int>
    var endOfMessage: int
    var initialized: bool
    /** The calls made into the arithmetic coder, oldest first. */
    var calls: seq<CoderCall>

    ghost function State(): Ctx
      reads this`kind, this`initialSize, this`maxLength, this`length, this`nSymbols, this`total, this`incr,
        this`nSingletons, this`mps, this`freq, this`endOfMessage, this`initialized
    {
      Ctx(kind, initialSize, maxLength, length, nSymbols, total, incr, nSingletons, mps,
          freq, endOfMessage, initialized)
    }

    /** The array holds the Moffat tree of `freq`, whose last position is a power of two. */
    ghost predicate Laid()
      reads this`tree, tree, this`freq, this`maxLength
    {
      maxLength >= 1 && IsPowerOfTwo(maxLength) && |freq| == maxLength + 1 &&
      tree.Length == |freq| && Holds(tree[..], freq)
    }

    ghost predicate Valid()
      reads this`kind, this`initialSize, this`maxLength, this`length, this`nSymbols, this`total, this`incr,
        this`nSingletons, this`mps, this`freq, this`endOfMessage, this`initialized, this`tree, tree
    {
      Contexts.Valid(State()) && Laid()
    }

    /** Context(size, type): a table made by setType, not yet initialised. */
    constructor (len: int, ct: ContextType)
      requires len >= 0
      ensures State() == SetTypeOf(Blank, len, ct) && calls == []
      ensures Valid()
    {
      initialized := false;
      calls := [];
      new;
      SetType(len, ct);
    }

    /** setType(len, ct) */
    method SetType(len: int, ct: ContextType)
      requires len >= 0
      modifies this
      ensures State() == SetTypeOf(old(State()), len, ct) && calls == old(calls) && fresh(tree)
      ensures Valid()
    {
      ghost var before := State();
      var size := 1;
      while size < len + 2
        invariant size >= 1 && IsPowerOfTwo(size)
        invariant LeastPowerOfTwo(len + 2, size) == LeastPowerOfTwo(len + 2, 1)
        decreases len + 2 - size
      {
        assert IsPowerOfTwo(2 * size) by {
          assert (2 * size) / 2 == size;
        }
        size := 2 * size;
      }
      assert size >= 2;
      kind := ct;
      endOfMessage := len + 1;
      initialSize := size;
      ResetTable(size);
      SetTypeFresh(before, len, ct);
    }

    /** purgeContext */
    method Purge()
      requires Valid()
      modifies this
      ensures State() == PurgeOf(old(State())) && calls == old(calls) && fresh(tree)
      ensures Valid()
    {
      ghost var before := State();
      ResetTable(initialSize);
      PurgeFresh(before);
    }

    /** The part setType and purgeContext share: a zeroed table of `size` positions past 0, then the escape. */
    method ResetTable(size: int)
      requires size >= 2 && IsPowerOfTwo(size)
      modifies this
      ensures State() == Reset(old(State()), size) && calls == old(calls) && fresh(tree) && Laid()
    {
      ClearTable(size);
      InitZeroFreq();
      AdjustZeroFreq();
    }

    /** A new array of zeros for `size` positions past 0, and the counts of an empty table. */
    method ClearTable(size: int)
      requires size >= 2 && IsPowerOfTwo(size)
      modifies this
      ensures State() == old(State()).(length := 1, total := 0, nSymbols := 1, maxLength := size, mps := NoMps,
        freq := Zeros(size + 1), incr := InitialIncr, nSingletons := 0)
      ensures calls == old(calls) && fresh(tree) && Laid()
    {
      var t := NewZeroTree(size);
      tree := t;
      freq := Zeros(size + 1);
      maxLength := size;
      length := 1;
      total := 0;
      nSymbols := 1;
      mps := NoMps;
      incr := InitialIncr;
      nSingletons := 0;
    }

    /** The array of a table of zeros: all its nodes are 0. */
    static method NewZeroTree(size: int) returns (t: array<int>)
      requires size >= 1
      ensures fresh(t) && t.Length == size + 1 && Holds(t[..], Zeros(size + 1))
    {
      t := new int[size + 1](_ => 0);
      assert t[..] == Zeros(size + 1);
      HeldZeros(size + 1);
    }

    /** initZeroFreq */
    method InitZeroFreq()
      modifies this
      ensures State() == Contexts.InitZeroFreq(old(State())) && calls == old(calls)
      ensures tree == old(tree) && freq == old(freq) && maxLength == old(maxLength)
    {
      if kind == DynamicContext {
        nSingletons := nSingletons + incr;
      } else {
        nSingletons := 0;
      }
    }

    /** INCR_SYMBOL_PROB(symbol, low, high, inc): the nodes holding `symbol` gain `inc`, found by the BACK walk. */
    method IncrProb(symbol: int, low: int, high: int, inc: int)
      requires Laid() && 1 <= symbol < tree.Length
      modifies this, tree
      ensures State() == Contexts.IncrProb(old(State()), symbol, low, high, inc)
      ensures calls == old(calls) && tree == old(tree) && Laid()
    {
      ghost var f := freq;
      ghost var t := tree[..];
      RaiseAlongBack(tree, symbol, inc);
      HeldSet(t, f, symbol, f[symbol] + inc, tree[..]);
      freq := f[symbol := f[symbol] + inc];
      total := total + inc;
      mps := IncrMps(mps, symbol, low, high, inc);
    }

    /** The loop of INCR_SYMBOL_PROB_ACTUAL: p = symbol, BACK(symbol), ... down to 0, each node gaining `inc`. */
    static method RaiseAlongBack(a: array<int>, symbol: int, inc: int)
      requires 1 <= symbol < a.Length
      modifies a
      ensures forall x :: 0 <= x < a.Length ==> a[x] == old(a[x]) + (if Covers(x, symbol) then inc else 0)
    {
      var p := symbol;
      while p > 0
        invariant 0 <= p <= symbol
        invariant p >= 1 ==> Covers(p, symbol)
        invariant forall x :: 0 <= x < a.Length ==>
          a[x] == old(a[x]) + (if p < x && Covers(x, symbol) then inc else 0)
        decreases p
      {
        a[p] := a[p] + inc;
        forall x | Back(p) < x < p
          ensures !Covers(x, symbol)
        {
          NoCoverBetween(x, p, symbol);
        }
        if Back(p) >= 1 {
          BackParent(p);
          CoversChain(Back(p), p, symbol);
        }
        p := Back(p);
      }
    }

    /** ADJUST_ZERO_FREQ: tree[1] is the escape's own frequency. */
    method AdjustZeroFreq()
      requires Laid()
      modifies this, tree
      ensures State() == Contexts.AdjustZeroFreq(old(State())) && calls == old(calls) && tree == old(tree) && Laid()
    {
      HeldOdd(tree[..], freq, 1);
      var diff := nSingletons - tree[1];
      if diff != 0 {
        IncrProb(1, 0, tree[1], diff);
      }
    }

    /** GET_COUNT(s): an odd node is its own frequency; an even one less the nodes inside it. */
    method GetCount(s: int) returns (c: int)
      requires Laid() && 1 <= s < tree.Length
      ensures c == freq[s]
    {
      if s % 2 == 1 {
        HeldOdd(tree[..], freq, s);
        c := tree[s];
      } else {
        var q := s + 1;
        var z := Min(Forw(s), maxLength + 1);
        HeldNode(tree[..], freq, s);
        c := tree[s];
        while q < z
          invariant s < q <= Forw(s) && z <= |freq|
          invariant c == Sum(freq, s, z) - Sum(freq, s + 1, Min(q, z))
          decreases z - q
        {
          HeldNode(tree[..], freq, q);
          ForwInside(s, q);
          SumSplit(freq, s + 1, q, Min(Forw(q), z));
          c := c - tree[q];
          q := Forw(q);
        }
        SumSplit(freq, s, s + 1, z);
        assert Sum(freq, s, s + 1) == freq[s] by {
          assert Sum(freq, s, s) == 0;
        }
      }
    }

    /**
     * getInterval: the powers of two below `s` add up the frequencies up
     * to the first power p at or above `s`; the FORW walk from `s` to p
     * takes off those from `s` on; GET_COUNT gives the width.
     */
    method GetInterval(s: int) returns (low: int, high: int)
      requires Laid() && 1 <= s < tree.Length
      ensures (low, high) == Interval(State(), s)
    {
      low := 0;
      var p := 1;
      while p < s
        invariant IsPowerOfTwo(p) && 1 <= p <= maxLength
        invariant low == Sum(freq, 1, p)
        decreases s - p
      {
        PowerOfTwoDouble(p, maxLength);
        HeldPower(tree[..], freq, p);
        SumSplit(freq, 1, p, 2 * p);
        low := low + tree[p];
        assert IsPowerOfTwo(2 * p) by {
          assert (2 * p) / 2 == p;
        }
        p := 2 * p;
      }
      PowerLowBit(p);
      var q := s;
      while q != p && q <= maxLength
        invariant s <= q <= p
        invariant low == Sum(freq, 1, p) - Sum(freq, s, q)
        decreases p - q
      {
        HeldBelow(tree[..], freq, q, p);
        SumSplit(freq, s, q, Forw(q));
        low := low - tree[q];
        q := Forw(q);
      }
      SumSplit(freq, 1, s, p);
      var count := GetCount(s);
      high := low + count;
    }

    /**
     * halveContext: the increment is halved, every frequency from position 2
     * on becomes (f + 1) >> 1 while the total and the singletons are counted
     * again, and the most frequent symbol's record is read again.
     */
    method Halve()
      requires Valid()
      modifies this, tree
      ensures calls == old(calls) && tree == old(tree)
      ensures State() == HalveOf(old(State()))
      ensures Valid()
    {
      ghost var before := State();
      HalveCounts();
      HalvedCountsShape(before);
      if mps.symbol != -1 {
        var low, high := GetInterval(mps.symbol);
        mps := Mps(mps.symbol, high - low, low);
      }
      assert State() == Remeasure(HalvedCounts(before), before.mps.symbol);
      RemeasureConsistent(HalvedCounts(before), before.mps.symbol);
      AdjustZeroFreq();
      HalveValid(before);
    }

    /**
     * The counting part of halveContext: the tree becomes the frequencies,
     * they are halved and counted, the tree is rebuilt, and the escape and
     * the total are set.
     */
    method HalveCounts()
      requires Laid()
      modifies this, tree
      ensures calls == old(calls) && tree == old(tree) && Laid()
      ensures State() == HalvedCounts(old(State()))
    {
      ghost var before := State();
      incr := HalvedIncr(incr);
      var t, nS := HalveTree(tree, before.freq, maxLength, incr, kind == StaticContext);
      nSingletons := nS;
      total := t + nS;
      freq := HalvedFreqs(before.freq)[1 := nS];
      HalvedCountsIs(before, incr, t, nS, State());
    }

    /**
     * halveContext on the array: back to frequencies, each halved, the
     * tree rebuilt, and the escape's node set to the singletons counted
     * (none in a static table); answers the halved sum from position 2 on
     * and that count.
     */
    static method HalveTree(a: array<int>, ghost f: seq<int>, n: int, incr: int, isStatic: bool) returns (t: int, nS: int)
      requires n >= 1 && IsPowerOfTwo(n) && a.Length == |f| == n + 1 && Holds(a[..], f)
      modifies a
      ensures var h := HalvedFreqs(f);
        t == Sum(h, 2, |h|) && nS == (if isStatic then 0 else incr + incr * CountEqual(h, 2, |h|, incr)) &&
        Holds(a[..], h[1 := nS])
    {
      ToFrequencies(a, f, n);
      t, nS := HalveFrequencies(a, incr);
      ghost var h := a[..];
      ToTree(a, n);
      if isStatic {
        nS := 0;
      }
      ghost var t1 := a[..];
      HeldOdd(t1, h, 1);
      a[1] := nS;
      HeldSet(t1, h, 1, nS, a[..]);
    }

    /**
     * halveContext's first conversion: from the largest power of two p
     * down to 2, node x for each x a multiple of p loses the node p / 2
     * after it, leaving every node its own frequency.
     */
    static method ToFrequencies(a: array<int>, ghost f: seq<int>, n: int)
      requires n >= 1 && IsPowerOfTwo(n) && a.Length == |f| == n + 1 && Holds(a[..], f)
      modifies a
      ensures a[..] == f
    {
      var shifts := 0;
      var p := n;
      while p > 1
        invariant p >= 1 && IsPowerOfTwo(p) && p * Pow2(shifts) == n
        decreases p
      {
        var h := p / 2;
        assert p == 2 * h;
        assert h * Pow2(shifts + 1) == p * Pow2(shifts);
        p := h;
        shifts := shifts + 1;
      }
      p := Pow2(shifts);
      while p > 1
        invariant 1 <= p <= n && IsPowerOfTwo(p)
        invariant AtLevel(a[..], f, p)
        decreases p
      {
        var h := p / 2;
        assert p == 2 * h && IsPowerOfTwo(h);
        LevelDown(a, f, h, n);
        p := h;
      }
      AtLevelOne(a[..], f);
    }

    /**
     * halveContext's last conversion: for p = 2, 4, ... up to the table's
     * end, node x for each x a multiple of p gains the node p / 2 after it,
     * leaving the Moffat tree of the frequencies.
     */
    static method ToTree(a: array<int>, n: int)
      requires n >= 1 && IsPowerOfTwo(n) && a.Length == n + 1
      modifies a
      ensures Holds(a[..], old(a[..]))
    {
      ghost var f := a[..];
      LevelOneOf(f);
      var p := 2;
      ghost var h := 1;
      while p <= n
        invariant p == 2 * h && IsPowerOfTwo(h) && h <= n
        invariant AtLevel(a[..], f, h)
        decreases n - h
      {
        LevelUp(a, f, h, p, n);
        h := p;
        p := 2 * p;
      }
      if h < n {
        PowerOfTwoDouble(h, n);
      }
      assert h == n && |f| - 1 == n;
    }

    /**
     * One pass of halveContext's first conversion, at step 2h: node x for
     * each x a multiple of 2h gives up the node h after it, which takes the
     * table from level 2h to level h.
     */
    static method LevelDown(a: array<int>, ghost f: seq<int>, h: int, n: int)
      requires IsPowerOfTwo(h) && 2 * h <= n && a.Length == |f| == n + 1 && AtLevel(a[..], f, 2 * h)
      modifies a
      ensures AtLevel(a[..], f, h)
    {
      var p := 2 * h;
      var symbol := p;
      PowerLowBit(p);
      ConvertedStart(f, p, h, h);
      while symbol + h <= n
        invariant symbol >= p && LowBit(symbol) >= p
        invariant ConvertedUpTo(a[..], f, p, h, p, symbol)
        decreases n - symbol
      {
        ConvertedNextDown(a[..], f, h, symbol);
        a[symbol] := a[symbol] - a[symbol + h];
        symbol := symbol + p;
      }
      ConvertedDone(f, p, h, h, symbol);
    }

    /**
     * One pass of halveContext's last conversion, at step p: node x for
     * each x a multiple of p gains the node p / 2 after it, which takes the
     * table from level p / 2 to level p.
     */
    static method LevelUp(a: array<int>, ghost f: seq<int>, ghost h: int, p: int, n: int)
      requires IsPowerOfTwo(h) && p == 2 * h && p <= n && a.Length == |f| == n + 1 && AtLevel(a[..], f, h)
      modifies a
      ensures AtLevel(a[..], f, p)
    {
      var symbol := p;
      PowerLowBit(p);
      ConvertedStart(f, h, p, h);
      assert p / 2 == h;
      while symbol + p / 2 <= n
        invariant symbol >= p && LowBit(symbol) >= p
        invariant forall x :: 0 <= x < a.Length ==> a[x] == ConvertedAt(f, h, p, p, symbol, x)
        decreases n - symbol
      {
        ConvertedStep(f, h, p, h, symbol);
        a[symbol] := a[symbol] + a[symbol + p / 2];
        symbol := symbol + p;
      }
      ConvertedDone(f, h, p, h, symbol);
    }

    /**
     * Every frequency from position 2 on becomes (f + 1) >> 1; answers
     * their sum and `incr` for each that now equals `incr`, plus one more.
     */
    static method HalveFrequencies(a: array<int>, incr: int) returns (t: int, nS: int)
      requires a.Length >= 2
      modifies a
      ensures a[..] == HalvedFreqs(old(a[..]))
      ensures t == Sum(a[..], 2, a.Length) && nS == incr + incr * CountEqual(a[..], 2, a.Length, incr)
    {
      ghost var h := HalvedFreqs(a[..]);
      nS := incr;
      t := 0;
      var p := 2;
      while p < a.Length
        invariant 2 <= p <= a.Length
        invariant forall i :: 0 <= i < p ==> a[i] == h[i]
        invariant forall i :: p <= i < a.Length ==> a[i] == old(a[i])
        invariant t == Sum(h, 2, p)
        invariant nS == incr + incr * CountEqual(h, 2, p, incr)
      {
        a[p] := (a[p] + 1) / 2;
        t := t + a[p];
        Distribute(incr, CountEqual(h, 2, p, incr));
        if a[p] == incr {
          nS := nS + incr;
        }
        p := p + 1;
      }
      assert a[..] == h;
    }

    /** `while (total > MAX_FREQUENCY) halveContext();` */
    method SettleTable()
      requires Valid()
      modifies this, tree
      ensures State() == HalveUntilFits(old(State()))
      ensures calls == old(calls) && tree == old(tree) && Valid()
    {
      ghost var before := State();
      while total > MaxFrequency
        invariant Valid() && calls == old(calls) && tree == old(tree)
        invariant HalveUntilFits(State()) == HalveUntilFits(before)
        decreases Measure(State())
      {
        ghost var pre := State();
        HalveDecreases(pre);
        Halve();
      }
    }

    /**
     * installSymbol: a symbol at or below `length` counts as installed;
     * otherwise the array is reallocated at twice the size until the
     * symbol fits, the symbol count is checked, and the new symbol gets
     * frequency `incr`.
     */
    method Install(symbol: int) returns (st: Status)
      requires Valid()
      modifies this, tree
      ensures calls == old(calls) && (tree == old(tree) || fresh(tree))
      ensures State() == InstallOf(old(State()), symbol).ctx && st == InstallOf(old(State()), symbol).status
      ensures Valid()
    {
      ghost var before := State();
      var s := symbol + 2;
      if s <= length {
        return Ok;
      }
      GrowTable(s);
      GrowValid(before, s);
      if (nSymbols + 1) * 2 >= MaxFrequency {
        return TooManySymbols;
      }
      ghost var g := State();
      AddNew(s);
      AddSymbolValid(g, s);
      SettleTable();
      st := Ok;
    }

    /** installSymbol's reallocation loop: the array doubles until position `s` fits, the new half cleared. */
    method GrowTable(s: int)
      requires Laid()
      modifies this
      ensures calls == old(calls) && (tree == old(tree) || fresh(tree)) && Laid()
      ensures State() == Grow(old(State()), s)
    {
      ghost var before := State();
      while s > maxLength
        invariant Laid()
        invariant calls == old(calls) && (tree == old(tree) || fresh(tree))
        invariant State() == before.(maxLength := maxLength, freq := freq)
        invariant Grow(State(), s) == Grow(before, s)
        decreases s - maxLength
      {
        HeldGrow(tree[..], freq, maxLength);
        var t := Reallocated(tree);
        tree := t;
        freq := freq + Zeros(maxLength);
        assert IsPowerOfTwo(2 * maxLength) by {
          assert (2 * maxLength) / 2 == maxLength;
        }
        maxLength := 2 * maxLength;
      }
    }

    /** realloc to twice the positions past 0, and the loop that clears the new part. */
    static method Reallocated(a: array<int>) returns (t: array<int>)
      requires a.Length >= 1
      ensures fresh(t) && t[..] == a[..] + Zeros(a.Length - 1)
    {
      var m := a.Length - 1;
      t := new int[2 * m + 1];
      forall i | 0 <= i <= m {
        t[i] := a[i];
      }
      var i := m + 1;
      while i <= 2 * m
        invariant m + 1 <= i <= 2 * m + 1
        invariant forall j :: 0 <= j <= m ==> t[j] == a[j]
        invariant forall j :: m < j < i ==> t[j] == 0
      {
        t[i] := 0;
        i := i + 1;
      }
      assert t[..] == a[..] + Zeros(m);
    }

    /** The symbol at position `s` comes into the table with frequency `incr`, a singleton. */
    method AddNew(s: int)
      requires Laid() && length < s < tree.Length && 2 <= s
      modifies this, tree
      ensures calls == old(calls) && tree == old(tree) && Laid()
      ensures State() == AddSymbol(old(State()), s)
    {
      ghost var g := State();
      length := s;
      nSymbols := nSymbols + 1;
      ghost var g1 := State();
      var low, high := GetInterval(s);
      IncrProb(s, low, high, incr);
      assert State() == IncrAt(g1, s, g.incr);
      CountSingleton();
      AdjustZeroFreq();
    }

    /** A dynamic context counts one more singleton. */
    method CountSingleton()
      modifies this
      ensures calls == old(calls) && tree == old(tree) && freq == old(freq) && maxLength == old(maxLength)
      ensures State() == Contexts.CountSingleton(old(State()))
    {
      if kind == DynamicContext {
        nSingletons := nSingletons + incr;
      }
    }

    /**
     * encode(symbol): the symbol's interval is looked up, or the escape's
     * when the symbol has none; the interval, with the most frequent
     * symbol moved to the top, goes to the coder; then the coded position
     * is counted and the table halved if it has grown too large.
     */
    method Encode(symbol: int) returns (r: Reply)
      requires Valid()
      modifies this, tree
      ensures tree == old(tree)
      ensures r == ReplyOf(EncodeOf(old(State()), symbol))
      ensures EncodeOf(old(State()), symbol).Raised? ==> State() == old(State()) && calls == old(calls)
      ensures EncodeOf(old(State()), symbol).Step? ==> State() == EncodeOf(old(State()), symbol).ctx
      ensures EncodeOf(old(State()), symbol).Step? ==> calls == old(calls) + EncodeOf(old(State()), symbol).calls
      ensures Valid()
    {
      ghost var before := State();
      ghost var made := calls;
      if !initialized {
        return Failed(NotInitialized);
      }
      var s := symbol + 2;
      var low, high := 0, 0;
      if 0 < s <= maxLength {
        low, high := KeptIntervalOf(s);
      }
      if low == high {
        if nSingletons == 0 {
          return Failed(ZeroProbabilityNovelSymbol);
        }
        s := 1;
        low, high := KeptIntervalOf(1);
      }
      EncodedPositionCoded(before, symbol);
      assert s == EncodedPosition(before, symbol);
      KeptIntervalExact(before, s);
      var st := EncodeAt(s, low, high);
      ghost var step := EncodeOf(before, symbol);
      assert step == Settle(Coded(before, s), [EncodeCallOf(before, s)], if s == 1 then NotKnown else Ok);
      r := Done(st);
    }

    /**
     * The rest of encode once position `s`, with interval [low, high), is
     * chosen: the shifted interval goes to the coder, the position is
     * counted, and the table is halved while it is too large.
     */
    method EncodeAt(s: int, low: int, high: int) returns (st: Status)
      requires Valid() && 1 <= s < tree.Length && freq[s] > 0 && (low, high) == Interval(State(), s)
      modifies this, tree
      ensures tree == old(tree) && calls == old(calls) + [EncodeCallOf(old(State()), s)]
      ensures Contexts.Valid(Coded(old(State()), s))
      ensures Settle(Coded(old(State()), s), [EncodeCallOf(old(State()), s)], if s == 1 then NotKnown else Ok) ==
        Step(State(), [EncodeCallOf(old(State()), s)], st)
      ensures Valid()
    {
      ghost var before := State();
      var lowW, highW := low, high;
      if s > mps.symbol {
        lowW, highW := low - mps.count, high - mps.count;
      } else if s == mps.symbol {
        lowW, highW := total - mps.count, total;
      }
      var call := EncodeCall(lowW, highW, total);
      KeptIntervalExact(before, s);
      assert call == EncodeCallOf(before, s);
      CodedValid(before, s);
      calls := calls + [call];
      CodeAt(s, low, high);
      SettleTable();
      st := if s == 1 then NotKnown else Ok;
    }

    /** The interval of position `s` as encode reads it: from the most frequent symbol's record, or the table. */
    method KeptIntervalOf(s: int) returns (low: int, high: int)
      requires Laid() && 1 <= s < tree.Length
      ensures (low, high) == KeptInterval(State(), s)
    {
      if mps.symbol == s {
        low := mps.pos;
        high := low + mps.count;
      } else {
        low, high := GetInterval(s);
      }
    }

    /**
     * The update after position `s`, whose interval is [low, high), is
     * coded: any position but the escape stops being a singleton if it
     * was one and gains `incr`; the escape then follows the singleton count.
     */
    method CodeAt(s: int, low: int, high: int)
      requires Valid() && 1 <= s < tree.Length && (low, high) == Interval(State(), s)
      modifies this, tree
      ensures calls == old(calls) && tree == old(tree) && Laid()
      ensures State() == Coded(old(State()), s)
    {
      if s != 1 {
        if kind == DynamicContext && high - low == incr {
          nSingletons := nSingletons - incr;
        }
        IncrProb(s, low, high, incr);
      }
      AdjustZeroFreq();
    }

    /** encodeEndOfMessage */
    method EncodeEndOfMessage() returns (r: Reply)
      requires Valid()
      modifies this, tree
      ensures tree == old(tree)
      ensures r == ReplyOf(EncodeEndOfMessageOf(old(State())))
      ensures EncodeEndOfMessageOf(old(State())).Raised? ==> State() == old(State()) && calls == old(calls)
      ensures EncodeEndOfMessageOf(old(State())).Step? ==>
        State() == EncodeEndOfMessageOf(old(State())).ctx &&
        calls == old(calls) + EncodeEndOfMessageOf(old(State())).calls
      ensures Valid()
    {
      if !initialized {
        return Failed(NotInitialized);
      }
      r := Encode(endOfMessage);
    }

    /**
     * decode, given the target the coder answers to arithmeticDecodeTarget(total):
     * a target in the top `mps.count` values is the most frequent symbol;
     * any other is moved past the most frequent symbol's interval when it
     * lies above it and searched for down the tree.
     */
    method Decode(target: int) returns (r: Reply)
      requires Valid() && (initialized ==> 0 <= target < total)
      modifies this, tree
      ensures tree == old(tree)
      ensures r == ReplyOf(DecodeOf(old(State()), target))
      ensures DecodeOf(old(State()), target).Raised? ==> State() == old(State()) && calls == old(calls)
      ensures DecodeOf(old(State()), target).Step? ==> State() == DecodeOf(old(State()), target).ctx
      ensures DecodeOf(old(State()), target).Step? ==> calls == old(calls) + DecodeOf(old(State()), target).calls
      ensures Valid()
    {
      ghost var before := State();
      ghost var made := calls;
      if !initialized {
        return Failed(NotInitialized);
      }
      var targetCall := DecodeTargetCall(total);
      calls := calls + [targetCall];
      var s, call := DecodeSymbol(target);
      DecodeSettles(before, target, s, call);
      SettleTable();
      var st := if s == 1 then NotKnown else Symbol(s - 2);
      AppendedTwo(made, targetCall, call);
      r := Done(st);
    }

    /** The symbol decode finds for `target`, the interval handed back to the coder, and the update after it. */
    method DecodeSymbol(target: int) returns (s: int, call: CoderCall)
      requires Valid() && 0 <= target < total
      modifies this, tree
      ensures (s, call) == DecodeChoice(old(State()), target)
      ensures tree == old(tree) && calls == old(calls) + [call] && Laid()
      ensures State() == Coded(old(State()), s)
    {
      if target >= total - mps.count {
        s := mps.symbol;
        call := DecodeCall(total - mps.count, total, total);
        calls := calls + [call];
        DecodeMostFrequent();
      } else {
        s, call := DecodeSlowly(target);
      }
    }

    /**
     * The shortcut of decode: the most frequent symbol is incremented
     * first, then stops being a singleton if it was one; the escape then
     * follows the singleton count, which undoes an increment of the
     * escape itself.
     */
    method DecodeMostFrequent()
      requires Valid() && mps != NoMps
      modifies this, tree
      ensures calls == old(calls) && tree == old(tree) && Laid()
      ensures State() == Coded(old(State()), old(mps.symbol))
    {
      var s := mps.symbol;
      var low := mps.pos;
      var high := low + mps.count;
      IncrProb(s, low, high, incr);
      if s != 1 && kind == DynamicContext && high - low == incr {
        nSingletons := nSingletons - incr;
      }
      AdjustZeroFreq();
    }

    /**
     * The slow path of decode: the moved target is searched for down the
     * tree, the nodes holding the symbol found gaining `incr` on the way;
     * the interval goes back to the coder shifted down when it lies above
     * the most frequent symbol's; then the symbol stops being a singleton
     * if it was one, the total and the most frequent symbol's record are
     * brought up to date, and the escape follows the singleton count.
     */
    method DecodeSlowly(target: int) returns (s: int, call: CoderCall)
      requires Valid() && 0 <= target < total - mps.count
      modifies this, tree
      ensures (s, call) == SlowDecode(old(State()), target)
      ensures tree == old(tree) && calls == old(calls) + [call] && Laid()
      ensures State() == Coded(old(State()), s)
    {
      ghost var before := State();
      var low, high;
      s, call, low, high := SlowSearch(target);
      if s != 1 {
        if kind == DynamicContext && high - low == incr {
          nSingletons := nSingletons - incr;
        }
        total := total + incr;
        mps := IncrMps(mps, s, low, high, incr);
        DecodedCounted(before, s, low, high, State());
      }
      AdjustZeroFreq();
    }

    /**
     * The search of decode's slow path: the moved target's position, whose
     * interval [low, high) is reported to the coder, unmoved when it lies
     * below the most frequent symbol's.
     */
    method SlowSearch(target: int) returns (s: int, call: CoderCall, low: int, high: int)
      requires Valid() && 0 <= target < total - mps.count
      modifies this`freq, this`calls, tree
      ensures (s, call) == SlowDecode(old(State()), target)
      ensures (low, high) == Interval(old(State()), s)
      ensures freq == if s == 1 then old(freq) else old(freq)[s := old(freq)[s] + incr]
      ensures calls == old(calls) + [call] && Laid()
    {
      ghost var before := State();
      var moved := if target >= mps.pos then target + mps.count else target;
      RealTargetInRange(before, target);
      s, low, high := SearchAndCount(moved);
      if low >= mps.pos {
        call := DecodeCall(low - mps.count, high - mps.count, total);
      } else {
        call := DecodeCall(low, high, total);
      }
      SlowDecodeIs(before, target, moved, s, call);
      calls := calls + [call];
    }

    /**
     * decode's walk down the tree for the moved target: the position whose
     * interval holds it, and that interval. Unless it is the escape, the
     * position gains `incr` on the way, the nodes holding it one by one.
     */
    method SearchAndCount(moved: int) returns (s: int, low: int, high: int)
      requires Laid() && 0 <= moved < Sum(freq, 1, |freq|) && forall i :: 0 <= i < |freq| ==> freq[i] >= 0
      modifies this`freq, tree
      ensures s == FindSymbol(old(freq), moved, 1)
      ensures (low, high) == Interval(old(State()), s)
      ensures freq == if s == 1 then old(freq) else old(freq)[s := old(freq)[s] + incr]
      ensures Laid()
    {
      ghost var f := freq;
      var p;
      p, low := PowerSearch(moved);
      s, low := DescendAndCount(tree, f, maxLength, incr, moved, p, low);
      FindSymbolUnique(f, moved, 1, s);
      ghost var f' := if s == 1 then f else f[s := f[s] + incr];
      freq := f';
      if s % 2 == 1 {
        HeldOdd(tree[..], f', s);
        high := low + tree[s];
      } else {
        high := GetCount(s);
        high := high + low;
      }
      if s != 1 {
        high := high - incr;
      }
    }

    /** decode's descent and the count of the position it finds. */
    static method DescendAndCount(a: array<int>, ghost f: seq<int>, n: int, incr: int, moved: int, p: int, low0: int)
        returns (symbol: int, low: int)
      requires a.Length == |f| == n + 1 && Holds(a[..], f)
      requires IsPowerOfTwo(p) && 1 <= p <= n && LowBit(p) == p
      requires low0 == Sum(f, 1, p) <= moved < Sum(f, 1, Min(2 * p, |f|))
      modifies a
      ensures 1 <= symbol < |f| && low == Sum(f, 1, symbol) <= moved < Sum(f, 1, symbol + 1)
      ensures Holds(a[..], if symbol == 1 then f else f[symbol := f[symbol] + incr])
    {
      ghost var t0 := a[..];
      symbol, low := Descend(a, f, n, incr, moved, p, low0);
      CountFound(a, t0, f, symbol, incr);
    }

    /**
     * The end of decode's descent: position s, unless it is the escape,
     * gains `incr` itself, and the table holds the counted frequencies.
     */
    static method CountFound(a: array<int>, ghost t0: seq<int>, ghost f: seq<int>, s: int, incr: int)
      requires Holds(t0, f) && 1 <= s < |f| && a[..] == GainedBelow(t0, s, incr)
      modifies a
      ensures Holds(a[..], if s == 1 then f else f[s := f[s] + incr])
    {
      if s != 1 {
        HeldGained(t0, f, s, incr);
        a[s] := a[s] + incr;
        assert a[..] == GainedBelow(t0, s, incr)[s := t0[s] + incr];
      } else {
        GainedNone(t0, 1, incr);
        assert a[..] == t0;
      }
    }

    /**
     * decode's first loop: up the powers of two while the next one is in
     * the table and the target lies past it; answers the last power p and
     * the frequencies below it, the target lying below 2p.
     */
    method PowerSearch(moved: int) returns (p: int, low: int)
      requires Laid() && 0 <= moved < Sum(freq, 1, |freq|)
      ensures IsPowerOfTwo(p) && 1 <= p <= maxLength && LowBit(p) == p
      ensures low == Sum(freq, 1, p) <= moved < Sum(freq, 1, Min(2 * p, |freq|))
    {
      var target := moved;
      p := 1;
      low := 0;
      while 2 * p <= maxLength && tree[p] <= target
        invariant IsPowerOfTwo(p) && 1 <= p <= maxLength
        invariant low == Sum(freq, 1, p) && target == moved - low && 0 <= target
        decreases maxLength - p
      {
        HeldPower(tree[..], freq, p);
        SumSplit(freq, 1, p, 2 * p);
        target := target - tree[p];
        low := low + tree[p];
        assert IsPowerOfTwo(2 * p) by {
          assert (2 * p) / 2 == p;
        }
        p := 2 * p;
      }
      PowerLowBit(p);
      if 2 * p <= maxLength {
        HeldPower(tree[..], freq, p);
        SumSplit(freq, 1, p, 2 * p);
      } else if p < maxLength {
        PowerOfTwoDouble(p, maxLength);
      }
    }

    /**
     * decode's second loop: from the power p the window halves, moving
     * right past each half whose frequencies lie below the target; each
     * node moved past holds the position finally found and gains `incr`.
     */
    static method Descend(a: array<int>, ghost f: seq<int>, n: int, incr: int, moved: int, p: int, low0: int)
        returns (symbol: int, low: int)
      requires a.Length == |f| == n + 1 && Holds(a[..], f)
      requires IsPowerOfTwo(p) && 1 <= p <= n && LowBit(p) == p
      requires low0 == Sum(f, 1, p) <= moved < Sum(f, 1, Min(2 * p, |f|))
      modifies a
      ensures 1 <= symbol < |f| && low == Sum(f, 1, symbol) <= moved < Sum(f, 1, symbol + 1)
      ensures a[..] == GainedBelow(old(a[..]), symbol, incr)
    {
      var target := moved - low0;
      low := low0;
      symbol := p;
      var m := p / 2;
      var e := 0;
      ghost var w := p;
      ghost var t0 := a[..];
      GainedNone(t0, p, incr);
      DescendStart(f, t0, moved, p, low);
      while m >= 1
        invariant (w == 1 && m == 0) || w == 2 * m
        invariant 1 <= symbol < |f|
        invariant Descending(f, moved, symbol, w, low, t0[symbol] - e)
        invariant target == moved - low
        invariant forall x :: 0 <= x < a.Length ==> a[x] == GainedAt(t0, symbol, incr, x)
        decreases m
      {
        assert IsPowerOfTwo(m) by {
          assert w / 2 == m;
        }
        DescendStep(f, t0, moved, symbol, m, low, t0[symbol] - e);
        if symbol + m <= n {
          assert a[symbol] == t0[symbol] && a[symbol + m] == t0[symbol + m];
          e := e + a[symbol + m];
          // the left half, in the terms of DescendStep
          assert a[symbol] - e == (t0[symbol] - (e - a[symbol + m])) - t0[symbol + m];
          if a[symbol] - e <= target {
            target := target - (a[symbol] - e);
            low := low + (a[symbol] - e);
            GainedStep(t0, symbol, m, incr);
            if symbol != 1 {
              a[symbol] := a[symbol] + incr;
            }
            symbol := symbol + m;
            e := 0;
          }
        }
        w := m;
        m := m / 2;
      }
      assert a[..] == GainedBelow(t0, symbol, incr);
    }

    /**
     * initialize: installs every symbol below the end-of-message symbol,
     * ignoring the results, then the end-of-message symbol, which is fatal
     * if there are too many symbols; answers the last fixed symbol.
     */
    method Initialize() returns (r: Reply, last: int)
      requires Valid()
      modifies this, tree
      ensures calls == old(calls) && last == old(endOfMessage)
      ensures r == ReplyOf(InitializeOf(old(State())))
      ensures InitializeOf(old(State())).Step? ==> State() == InitializeOf(old(State())).ctx && Valid()
    {
      ghost var before := State();
      var st := InstallInitial();
      InitializeAfter(before, InstallRange(before, 0, before.endOfMessage), st, State());
      last := endOfMessage;
      if st == TooManySymbols {
        return Failed(TooManyInitialSymbols), last;
      }
      initialized := true;
      r := Done(Ok);
    }

    /** initialize's installations: the symbols below the end-of-message symbol, then that symbol. */
    method InstallInitial() returns (st: Status)
      requires Valid()
      modifies this, tree
      ensures calls == old(calls) && endOfMessage == old(endOfMessage) && Valid()
      ensures InstallOf(InstallRange(old(State()), 0, old(endOfMessage)), old(endOfMessage)) == Step(State(), [], st)
    {
      InstallBelow(endOfMessage);
      ghost var c1 := State();
      InstallOutcome(c1, endOfMessage);
      st := Install(endOfMessage);
    }

    /** initialize's loop: installSymbol on 0, ..., n - 1, the results ignored. */
    method InstallBelow(n: int)
      requires Valid()
      modifies this, tree
      ensures calls == old(calls) && (tree == old(tree) || fresh(tree)) && Valid()
      ensures State() == InstallRange(old(State()), 0, n)
    {
      ghost var before := State();
      var i := 0;
      while i < n
        invariant Valid() && calls == old(calls)
        invariant tree == old(tree) || fresh(tree)
        invariant InstallRange(State(), i, n) == InstallRange(before, 0, n)
        decreases n - i
      {
        InstallOutcome(State(), i);
        var ignored := Install(i);
        i := i + 1;
      }
    }
  }
}
