/**
 * The binary index tree ("Moffat tree") a context keeps its frequencies
 * in. Node x >= 1 of the tree holds the frequencies of the positions x
 * up to FORW(x) - 1, clipped at the end of the table; BACK and FORW clear
 * and add the lowest set bit of an index. The functions here say what
 * every node holds; the lemmas are the index arithmetic the walks of
 * context.cpp rely on.
 */
module MoffatTrees {
  import opened Contexts

  function Min(a: int, b: int): int
  {
    if a < b then a else b
  }

  /** i & -i: the lowest set bit of x. */
  function LowBit(x: int): (r: int)
    requires x >= 1
    ensures 1 <= r <= x && IsPowerOfTwo(r)
    decreases x
  {
    if x % 2 == 1 then 1
    else
      var h := LowBit(x / 2);
      assert (2 * h) / 2 == h;
      2 * h
  }

  /** BACK(i), written i & (i - 1) in the source: x with its lowest set bit cleared. */
  function Back(x: int): int
    requires x >= 1
  {
    x - LowBit(x)
  }

  /** FORW(i), written i + (i & -i) in the source. */
  function Forw(x: int): int
    requires x >= 1
  {
    x + LowBit(x)
  }

  /** 1 << k */
  function Pow2(k: nat): (r: int)
    ensures r >= 1 && IsPowerOfTwo(r)
  {
    if k == 0 then 1
    else
      var h := Pow2(k - 1);
      assert (2 * h) / 2 == h;
      2 * h
  }

  /** Node x holds the frequency of position s. */
  predicate Covers(x: int, s: int)
  {
    x >= 1 && x <= s < Forw(x)
  }

  /**
   * The tree part way through halveContext's conversions: node x >= 1
   * holds min(LowBit(x), p) positions from x on, clipped at the end of
   * the table; entry 0 is unused and keeps the frequency of position 0.
   */
  function Level(f: seq<int>, p: int): (t: seq<int>)
    requires p >= 1
    ensures |t| == |f|
  {
    seq(|f|, x requires 0 <= x < |f| => LevelAt(f, p, x))
  }

  /** What entry x of the tree holds at level p. */
  function LevelAt(f: seq<int>, p: int, x: int): int
    requires p >= 1 && 0 <= x < |f|
  {
    if x == 0 then f[0] else Node(f, p, x)
  }

  /** What node x holds at level p. */
  function Node(f: seq<int>, p: int, x: int): int
    requires p >= 1 && 1 <= x < |f|
  {
    Sum(f, x, Min(x + Min(LowBit(x), p), |f|))
  }

  /** The Moffat tree of the frequencies of positions 1 to |f| - 1. */
  function TreeOf(f: seq<int>): (t: seq<int>)
    requires |f| >= 2
    ensures |t| == |f|
  {
    Level(f, |f| - 1)
  }

  // ---------------------------------------------------------------------
  // The lowest set bit
  // ---------------------------------------------------------------------

  /** A power of two is its own lowest set bit. */
  lemma {:induction false} PowerLowBit(p: int)
    requires IsPowerOfTwo(p)
    ensures LowBit(p) == p
    decreases p
  {
    if p > 1 {
      PowerLowBit(p / 2);
    }
  }

  /** Below the lowest set bit of q, adding to q keeps the low bits: LowBit(q + r) == LowBit(r). */
  lemma {:induction false} LowBitOfSum(q: int, r: int)
    requires q >= 1 && 0 < r < LowBit(q)
    ensures LowBit(q + r) == LowBit(r)
    decreases q
  {
    if r % 2 == 0 {
      assert q % 2 == 0;
      assert (q + r) / 2 == q / 2 + r / 2;
      LowBitOfSum(q / 2, r / 2);
    }
  }

  /** q + LowBit(q) is even. */
  lemma ForwEven(q: int)
    requires q >= 1
    ensures Forw(q) % 2 == 0
  {
  }

  /** From below t, FORW does not overshoot t when t has at least q's lowest bit. */
  lemma {:induction false} ForwWithin(q: int, t: int)
    requires 1 <= q < t && LowBit(q) <= LowBit(t)
    ensures Forw(q) <= t
    decreases q
  {
    if q % 2 == 0 {
      assert t % 2 == 0;
      ForwWithin(q / 2, t / 2);
    }
  }

  /** A power of two p: LowBit(x) >= p carries from x to x + p. */
  lemma {:induction false} LowBitStep(x: int, p: int)
    requires x >= 1 && IsPowerOfTwo(p) && LowBit(x) >= p
    ensures LowBit(x + p) >= p
    decreases p
  {
    if p > 1 {
      assert x % 2 == 0;
      assert (x + p) / 2 == x / 2 + p / 2;
      LowBitStep(x / 2, p / 2);
    }
  }

  /** Between x and x + p, where LowBit(x) >= p, every index has a lower bit than p. */
  lemma LowBitBetween(x: int, p: int, y: int)
    requires x >= 1 && IsPowerOfTwo(p) && LowBit(x) >= p && x < y < x + p
    ensures LowBit(y) < p
  {
    LowBitAbove(x, p, y - x);
  }

  /** The same, counting from x: x + r for 0 < r < p has a lower bit than p. */
  lemma LowBitAbove(x: int, p: int, r: int)
    requires x >= 1 && IsPowerOfTwo(p) && LowBit(x) >= p && 0 < r < p
    ensures LowBit(x + r) < p
  {
    LowBitOfSum(x, r);
  }

  /** A smaller power of two is at most half a larger one. */
  lemma PowerBelow(a: int, p: int)
    requires IsPowerOfTwo(a) && IsPowerOfTwo(p) && a < p
    ensures a <= p / 2 && p % 2 == 0
  {
    PowerOfTwoDouble(a, p);
  }

  // ---------------------------------------------------------------------
  // Which nodes hold a position
  // ---------------------------------------------------------------------

  /** If q <= BACK(s) < FORW(q), then s < FORW(q) too. */
  lemma {:induction false} BackStaysCovered(q: int, s: int)
    requires q >= 1 && s >= 1 && q <= Back(s) < Forw(q)
    ensures s < Forw(q)
    decreases s
  {
    if s % 2 == 1 {
      ForwEven(q);
    } else if q % 2 == 0 {
      assert LowBit(s) == 2 * LowBit(s / 2) && LowBit(q) == 2 * LowBit(q / 2);
      BackStaysCovered(q / 2, s / 2);
    }
  }

  /** BACK(p), when it is a node, holds p: the walk of INCR_SYMBOL_PROB steps from a node to one that holds it. */
  lemma {:induction false} BackParent(p: int)
    requires p >= 1 && Back(p) >= 1
    ensures Covers(Back(p), p)
    decreases p
  {
    if p % 2 == 0 {
      var b := Back(p / 2);
      assert Back(p) == 2 * b;
      BackParent(p / 2);
      assert (2 * b) / 2 == b;
      assert LowBit(2 * b) == 2 * LowBit(b);
    } else {
      assert Back(p) == p - 1;
      assert LowBit(p - 1) == 2 * LowBit((p - 1) / 2);
    }
  }

  /** Inside node s, every node q ends no later than s does: the walk of GET_COUNT. */
  lemma ForwInside(s: int, q: int)
    requires s >= 1 && s < q < Forw(s)
    ensures Forw(q) <= Forw(s)
  {
    var r := q - s;
    LowBitOfSum(s, r);
    PowerLowBit(LowBit(s));
    ForwWithin(r, LowBit(s));
  }

  /** A node below s holds s exactly when it holds BACK(s): the walk of INCR_SYMBOL_PROB. */
  lemma BackCovers(q: int, s: int)
    requires 1 <= q < s
    ensures Covers(q, s) <==> Back(s) >= 1 && Covers(q, Back(s))
  {
    if Covers(q, s) {
      LowBitOfSum(q, s - q);
    }
    if Back(s) >= 1 && Covers(q, Back(s)) {
      BackStaysCovered(q, s);
    }
  }

  /** Below a node p that holds s, the nodes holding s are those holding p. */
  lemma {:induction false} CoversChain(q: int, p: int, s: int)
    requires 1 <= q <= p && Covers(p, s)
    ensures Covers(q, s) <==> Covers(q, p)
    decreases s
  {
    if p < s {
      BackCovers(p, s);
      BackCovers(q, s);
      CoversChain(q, p, Back(s));
    }
  }

  /** No node strictly between BACK(p) and p holds what p holds. */
  lemma NoCoverBetween(x: int, p: int, s: int)
    requires Covers(p, s) && Back(p) < x < p
    ensures !Covers(x, s)
  {
    CoversChain(x, p, s);
    BackCovers(x, p);
  }

  /** The decoder's step right from `symbol` by m: no node strictly between holds symbol + m. */
  lemma StepRight(symbol: int, m: int, x: int)
    requires symbol >= 1 && IsPowerOfTwo(m) && m < LowBit(symbol) && symbol < x < symbol + m
    ensures !Covers(x, symbol + m)
  {
    LowBitOfSum(symbol, x - symbol);
    PowerLowBit(m);
    ForwWithin(x - symbol, m);
  }

  // ---------------------------------------------------------------------
  // What the nodes hold
  // ---------------------------------------------------------------------

  /** Node x of the tree: FORW(x) is at most the table's end unless x is the last power of two. */
  lemma NodeOf(f: seq<int>, x: int)
    requires 1 <= x < |f|
    ensures TreeOf(f)[x] == Sum(f, x, Min(Forw(x), |f|))
  {
    assert TreeOf(f)[x] == Node(f, |f| - 1, x);
    assert Min(LowBit(x), |f| - 1) == LowBit(x);
  }

  /** Setting position s changes exactly the nodes that hold it, by the change. */
  lemma TreeSet(f: seq<int>, s: int, v: int)
    requires |f| >= 2 && 1 <= s < |f|
    ensures forall x :: 0 <= x < |f| ==>
      TreeOf(f[s := v])[x] == TreeOf(f)[x] + (if Covers(x, s) then v - f[s] else 0)
  {
    forall x | 0 <= x < |f|
      ensures TreeOf(f[s := v])[x] == TreeOf(f)[x] + (if Covers(x, s) then v - f[s] else 0)
    {
      if x >= 1 {
        NodeOf(f, x);
        NodeOf(f[s := v], x);
        SumUpdate(f, x, Min(Forw(x), |f|), s, v);
      }
    }
  }

  /** A node whose range ends at or before the table's end holds exactly that range. */
  lemma NodeBelow(f: seq<int>, q: int, t: int)
    requires 1 <= q < t < |f| && LowBit(q) <= LowBit(t)
    ensures Forw(q) <= t && TreeOf(f)[q] == Sum(f, q, Forw(q))
  {
    ForwWithin(q, t);
    NodeOf(f, q);
  }

  /** A power-of-two node p with 2p inside the table holds p to 2p - 1. */
  lemma PowerNode(f: seq<int>, p: int)
    requires IsPowerOfTwo(p) && 2 * p < |f|
    ensures TreeOf(f)[p] == Sum(f, p, 2 * p)
  {
    PowerLowBit(p);
    NodeOf(f, p);
  }

  /** An odd node holds its own position only. */
  lemma OddNode(f: seq<int>, s: int)
    requires 1 <= s < |f| && s % 2 == 1
    ensures TreeOf(f)[s] == f[s]
  {
    NodeOf(f, s);
    assert Min(Forw(s), |f|) == s + 1;
    assert Sum(f, s, s + 1) == Sum(f, s, s) + f[s];
  }

  /** The tree of a table of zeros is zeros. */
  lemma TreeOfZeros(n: nat)
    requires n >= 2
    ensures TreeOf(Zeros(n)) == Zeros(n)
  {
    forall x | 1 <= x < n
      ensures TreeOf(Zeros(n))[x] == 0
    {
      NodeOf(Zeros(n), x);
      SumZeros(Zeros(n), x, Min(Forw(x), n));
    }
  }

  /**
   * Doubling a table whose last position is a power of two m, the new
   * half zero, keeps every old node and makes every new one zero.
   */
  lemma TreeGrow(f: seq<int>, m: int)
    requires |f| == m + 1 && m >= 1 && IsPowerOfTwo(m)
    ensures TreeOf(f + Zeros(m)) == TreeOf(f) + Zeros(m)
  {
    var g := f + Zeros(m);
    PowerLowBit(m);
    forall x | 0 <= x < |g|
      ensures TreeOf(g)[x] == (TreeOf(f) + Zeros(m))[x]
    {
      if 1 <= x {
        NodeOf(g, x);
      }
      if 1 <= x <= m {
        NodeOf(f, x);
      }
      if 1 <= x < m {
        ForwWithin(x, m);
        SumPrefix(g, f, x, Forw(x));
      } else if x == m {
        SumSplit(g, m, m + 1, 2 * m);
        SumZeros(g, m + 1, 2 * m);
        assert Sum(g, m, m + 1) == f[m];
        assert Sum(f, m, m + 1) == f[m];
      } else if x > m {
        SumZeros(g, x, Min(Forw(x), |g|));
      }
    }
  }

  // ---------------------------------------------------------------------
  // The levels of halveContext's conversions
  // ---------------------------------------------------------------------

  /** At level 1 every node holds its own position: the tree has become the frequencies. */
  lemma LevelOne(f: seq<int>)
    ensures Level(f, 1) == f
  {
    forall x | 1 <= x < |f|
      ensures Level(f, 1)[x] == f[x]
    {
      assert Level(f, 1)[x] == Node(f, 1, x);
      assert Min(LowBit(x), 1) == 1;
      assert Sum(f, x, x + 1) == Sum(f, x, x) + f[x];
    }
  }

  /**
   * Level 2h of a node x with LowBit(x) >= 2h, less the node h along, is
   * its level h; the node h along is the same at both levels.
   */
  lemma LevelSplit(f: seq<int>, h: int, x: int)
    requires IsPowerOfTwo(h) && x >= 1 && LowBit(x) >= 2 * h && x + h < |f|
    ensures LevelAt(f, 2 * h, x) == LevelAt(f, h, x) + LevelAt(f, 2 * h, x + h)
    ensures LevelAt(f, 2 * h, x + h) == LevelAt(f, h, x + h)
  {
    var y := x + h;
    assert LowBit(y) == h by {
      PowerLowBit(h);
      LowBitOfSum(x, h);
    }
    var e := Min(x + 2 * h, |f|);
    assert LevelAt(f, 2 * h, x) == Sum(f, x, e);
    assert LevelAt(f, h, x) == Sum(f, x, y);
    assert LevelAt(f, 2 * h, y) == Sum(f, y, e);
    assert LevelAt(f, h, y) == Sum(f, y, e);
    SumSplit(f, x, y, e);
  }

  /** Where the conversions at level 2h leave a node alone, its levels 2h and h agree. */
  lemma LevelSame(f: seq<int>, h: int, x: int)
    requires IsPowerOfTwo(h) && 1 <= x < |f| && (LowBit(x) < 2 * h || x + h >= |f|)
    ensures LevelAt(f, 2 * h, x) == LevelAt(f, h, x)
  {
    var b := LowBit(x);
    assert Min(x + Min(b, 2 * h), |f|) == Min(x + Min(b, h), |f|) by {
      if b < 2 * h {
        assert b <= h by {
          if b > h {
            PowerOfTwoDouble(h, b);
          }
        }
      }
    }
    assert LevelAt(f, 2 * h, x) == Sum(f, x, Min(x + Min(b, 2 * h), |f|));
    assert LevelAt(f, h, x) == Sum(f, x, Min(x + Min(b, h), |f|));
  }

  // ---------------------------------------------------------------------
  // The tree part way through a walk
  // ---------------------------------------------------------------------

  /**
   * Part way through halveContext's conversion between levels `from` and
   * `to` at step p, what position x holds: the nodes below `symbol` with
   * LowBit(x) >= p are at level `to`, the rest still at level `from`.
   */
  function ConvertedAt(f: seq<int>, from: int, to: int, p: int, symbol: int, x: int): int
    requires from >= 1 && to >= 1 && 0 <= x < |f|
  {
    if 1 <= x < symbol && LowBit(x) >= p then LevelAt(f, to, x) else LevelAt(f, from, x)
  }

  /** Before a conversion between levels h and 2h, nothing is converted. */
  lemma ConvertedStart(f: seq<int>, from: int, to: int, h: int)
    requires from >= 1 && to >= 1 && IsPowerOfTwo(h)
    ensures forall x :: 0 <= x < |f| ==> ConvertedAt(f, from, to, 2 * h, 2 * h, x) == LevelAt(f, from, x)
  {
  }

  /**
   * One step of a conversion between levels h and 2h: node `symbol` moves
   * to level `to`, computed from what it and the node h along held, and
   * nothing else changes as the walk moves on by 2h.
   */
  lemma ConvertedStep(f: seq<int>, from: int, to: int, h: int, symbol: int)
    requires IsPowerOfTwo(h) && ((from == h && to == 2 * h) || (from == 2 * h && to == h))
    requires symbol >= 1 && LowBit(symbol) >= 2 * h && symbol + h < |f|
    ensures to == h ==> (ConvertedAt(f, from, to, 2 * h, symbol + 2 * h, symbol) ==
      ConvertedAt(f, from, to, 2 * h, symbol, symbol) - ConvertedAt(f, from, to, 2 * h, symbol, symbol + h))
    ensures to == 2 * h ==> (ConvertedAt(f, from, to, 2 * h, symbol + 2 * h, symbol) ==
      ConvertedAt(f, from, to, 2 * h, symbol, symbol) + ConvertedAt(f, from, to, 2 * h, symbol, symbol + h))
    ensures forall x :: 0 <= x < |f| && x != symbol ==>
      ConvertedAt(f, from, to, 2 * h, symbol, x) == ConvertedAt(f, from, to, 2 * h, symbol + 2 * h, x)
    ensures LowBit(symbol + 2 * h) >= 2 * h
  {
    LevelSplit(f, h, symbol);
    assert IsPowerOfTwo(2 * h) by {
      assert (2 * h) / 2 == h;
    }
    forall x | 0 <= x < |f| && x != symbol
      ensures ConvertedAt(f, from, to, 2 * h, symbol, x) == ConvertedAt(f, from, to, 2 * h, symbol + 2 * h, x)
    {
      if symbol < x < symbol + 2 * h {
        LowBitBetween(symbol, 2 * h, x);
      }
    }
    LowBitStep(symbol, 2 * h);
  }

  /** Once the walk has passed the table's end, the conversion is complete. */
  lemma ConvertedDone(f: seq<int>, from: int, to: int, h: int, symbol: int)
    requires IsPowerOfTwo(h) && ((from == h && to == 2 * h) || (from == 2 * h && to == h)) && symbol + h >= |f|
    ensures forall x :: 0 <= x < |f| ==> ConvertedAt(f, from, to, 2 * h, symbol, x) == LevelAt(f, to, x)
  {
    forall x | 0 <= x < |f|
      ensures ConvertedAt(f, from, to, 2 * h, symbol, x) == LevelAt(f, to, x)
    {
      if 1 <= x && !(x < symbol && LowBit(x) >= 2 * h) {
        LevelSame(f, h, x);
      }
    }
  }

  /** Table t part way through a conversion between levels: the nodes before `symbol` on multiples of p are converted. */
  ghost predicate ConvertedUpTo(t: seq<int>, f: seq<int>, from: int, to: int, p: int, symbol: int)
    requires from >= 1 && to >= 1
  {
    |t| == |f| && forall x :: 0 <= x < |f| ==> t[x] == ConvertedAt(f, from, to, p, symbol, x)
  }

  /** One step of halveContext's first conversion on the table itself: node `symbol` gives up the node h after it. */
  lemma ConvertedNextDown(t: seq<int>, f: seq<int>, h: int, symbol: int)
    requires IsPowerOfTwo(h) && symbol >= 1 && LowBit(symbol) >= 2 * h && symbol + h < |f|
    requires ConvertedUpTo(t, f, 2 * h, h, 2 * h, symbol)
    ensures ConvertedUpTo(t[symbol := t[symbol] - t[symbol + h]], f, 2 * h, h, 2 * h, symbol + 2 * h)
    ensures LowBit(symbol + 2 * h) >= 2 * h
  {
    ConvertedStep(f, 2 * h, h, h, symbol);
  }

  /** Part way through decode's descent, what node x holds: the nodes below `s` that hold `s` have gained `inc`. */
  function GainedAt(t: seq<int>, s: int, inc: int, x: int): int
    requires 0 <= x < |t|
  {
    t[x] + (if x < s && Covers(x, s) then inc else 0)
  }

  /** The whole table part way through decode's descent. */
  function GainedBelow(t: seq<int>, s: int, inc: int): (r: seq<int>)
    ensures |r| == |t| && forall x :: 0 <= x < |t| ==> r[x] == GainedAt(t, s, inc, x)
  {
    seq(|t|, x requires 0 <= x < |t| => GainedAt(t, s, inc, x))
  }

  /** At a power of two nothing below holds it. */
  lemma GainedNone(t: seq<int>, p: int, inc: int)
    requires IsPowerOfTwo(p)
    ensures forall x :: 0 <= x < |t| ==> GainedAt(t, p, inc, x) == t[x]
  {
    PowerLowBit(p);
    forall x | 1 <= x < p && x < |t|
      ensures !Covers(x, p)
    {
      ForwWithin(x, p);
    }
  }

  /** The step right from `s` by m: node `s` gains, and now holds s + m with those that held s. */
  lemma GainedStep(t: seq<int>, s: int, m: int, inc: int)
    requires 1 <= s < |t| && IsPowerOfTwo(m) && m < LowBit(s)
    ensures GainedAt(t, s + m, inc, s) == t[s] + inc
    ensures forall x :: 0 <= x < |t| && x != s ==> GainedAt(t, s, inc, x) == GainedAt(t, s + m, inc, x)
  {
    forall x | 0 <= x < |t| && x != s
      ensures GainedAt(t, s, inc, x) == GainedAt(t, s + m, inc, x)
    {
      if s < x < s + m {
        StepRight(s, m, x);
      } else if 1 <= x < s {
        CoversChain(x, s, s + m);
      }
    }
  }


  /** Ending the descent at `s`, node `s` gaining too gives the tree of the frequencies with `s` incremented. */
  lemma GainedTree(f: seq<int>, s: int, inc: int)
    requires 1 <= s < |f|
    ensures GainedBelow(TreeOf(f), s, inc)[s := TreeOf(f)[s] + inc] == TreeOf(f[s := f[s] + inc])
  {
    TreeSet(f, s, f[s] + inc);
  }

  // ---------------------------------------------------------------------
  // A table that holds a level, entry by entry
  // ---------------------------------------------------------------------

  /**
   * Table t holds level p of f, stated entry by entry; an entry is
   * unfolded only where a proof names it.
   */
  ghost predicate AtLevel(t: seq<int>, f: seq<int>, p: int)
    requires p >= 1
  {
    |t| == |f| && forall x {:trigger LevelAt(f, p, x)} :: 0 <= x < |f| ==> t[x] == LevelAt(f, p, x)
  }

  /** Table t holds the Moffat tree of f. */
  ghost predicate Holds(t: seq<int>, f: seq<int>)
  {
    |f| >= 2 && AtLevel(t, f, |f| - 1)
  }

  lemma AtLevelIs(t: seq<int>, f: seq<int>, p: int)
    requires p >= 1
    ensures AtLevel(t, f, p) <==> t == Level(f, p)
  {
    if AtLevel(t, f, p) {
      forall x | 0 <= x < |f|
        ensures t[x] == Level(f, p)[x]
      {
        assert t[x] == LevelAt(f, p, x);
      }
    }
  }

  lemma HoldsIs(t: seq<int>, f: seq<int>)
    requires |f| >= 2
    ensures Holds(t, f) <==> t == TreeOf(f)
  {
    AtLevelIs(t, f, |f| - 1);
  }

  /** At level 1 the table is the frequencies themselves. */
  lemma AtLevelOne(t: seq<int>, f: seq<int>)
    requires AtLevel(t, f, 1)
    ensures t == f
  {
    AtLevelIs(t, f, 1);
    LevelOne(f);
  }

  /** The frequencies hold their own level 1. */
  lemma LevelOneOf(f: seq<int>)
    ensures AtLevel(f, f, 1)
  {
    LevelOne(f);
    AtLevelIs(f, f, 1);
  }

  /** What a held node holds: the positions from x up to FORW(x), clipped at the table's end. */
  lemma HeldNode(t: seq<int>, f: seq<int>, x: int)
    requires Holds(t, f) && 1 <= x < |f|
    ensures t[x] == Sum(f, x, Min(Forw(x), |f|))
  {
    assert t[x] == LevelAt(f, |f| - 1, x);
    assert Min(LowBit(x), |f| - 1) == LowBit(x);
  }

  /** A held odd node is its position's own frequency. */
  lemma HeldOdd(t: seq<int>, f: seq<int>, s: int)
    requires Holds(t, f) && 1 <= s < |f| && s % 2 == 1
    ensures t[s] == f[s]
  {
    HoldsIs(t, f);
    OddNode(f, s);
  }

  /** A held power-of-two node p with 2p inside the table holds p to 2p - 1. */
  lemma HeldPower(t: seq<int>, f: seq<int>, p: int)
    requires Holds(t, f) && IsPowerOfTwo(p) && 2 * p < |f|
    ensures t[p] == Sum(f, p, 2 * p)
  {
    HoldsIs(t, f);
    PowerNode(f, p);
  }

  /** A held node whose range ends at or before u holds exactly that range. */
  lemma HeldBelow(t: seq<int>, f: seq<int>, q: int, u: int)
    requires Holds(t, f) && 1 <= q < u < |f| && LowBit(q) <= LowBit(u)
    ensures Forw(q) <= u && t[q] == Sum(f, q, Forw(q))
  {
    HoldsIs(t, f);
    NodeBelow(f, q, u);
  }

  /** Setting position s to v: the table whose nodes holding s changed by the difference holds the new tree. */
  lemma HeldSet(t: seq<int>, f: seq<int>, s: int, v: int, t': seq<int>)
    requires Holds(t, f) && 1 <= s < |f| && |t'| == |t|
    requires forall x :: 0 <= x < |t| ==> t'[x] == t[x] + (if Covers(x, s) then v - f[s] else 0)
    ensures Holds(t', f[s := v])
  {
    HoldsIs(t, f);
    TreeSet(f, s, v);
    assert t' == TreeOf(f[s := v]);
    HoldsIs(t', f[s := v]);
  }

  /** A table of zeros holds its own tree. */
  lemma HeldZeros(n: nat)
    requires n >= 2
    ensures Holds(Zeros(n), Zeros(n))
  {
    TreeOfZeros(n);
    HoldsIs(Zeros(n), Zeros(n));
  }

  /** Doubling a held table whose last position is a power of two, the new half zero. */
  lemma HeldGrow(t: seq<int>, f: seq<int>, m: int)
    requires Holds(t, f) && |f| == m + 1 && m >= 1 && IsPowerOfTwo(m)
    ensures Holds(t + Zeros(m), f + Zeros(m))
  {
    HoldsIs(t, f);
    TreeGrow(f, m);
    HoldsIs(t + Zeros(m), f + Zeros(m));
  }

  /** Ending decode's descent at s, node s gaining too: the table holds the tree with s incremented. */
  lemma HeldGained(t: seq<int>, f: seq<int>, s: int, inc: int)
    requires Holds(t, f) && 1 <= s < |f|
    ensures Holds(GainedBelow(t, s, inc)[s := t[s] + inc], f[s := f[s] + inc])
  {
    HoldsIs(t, f);
    GainedTree(f, s, inc);
    HoldsIs(GainedBelow(t, s, inc)[s := t[s] + inc], f[s := f[s] + inc]);
  }

  /**
   * Where decode's descent stands: the target lies in the window of w
   * positions from `symbol`, `low` is the sum below it, and `node` is what
   * the window holds.
   */
  ghost predicate Descending(f: seq<int>, moved: int, symbol: int, w: int, low: int, node: int)
  {
    IsPowerOfTwo(w) && 1 <= symbol < |f| && LowBit(symbol) >= w &&
    low == Sum(f, 1, symbol) <= moved < Sum(f, 1, Min(symbol + w, |f|)) &&
    node == Sum(f, symbol, Min(symbol + w, |f|))
  }

  /** decode's descent starts at a power of two p whose window of p positions holds the target. */
  lemma DescendStart(f: seq<int>, t: seq<int>, moved: int, p: int, low: int)
    requires Holds(t, f) && IsPowerOfTwo(p) && LowBit(p) == p && p < |f|
    requires low == Sum(f, 1, p) <= moved < Sum(f, 1, Min(2 * p, |f|))
    ensures Descending(f, moved, p, p, low, t[p])
  {
    HeldNode(t, f, p);
    var e := Min(2 * p, |f|);
    assert Min(Forw(p), |f|) == e && Min(p + p, |f|) == e;
    assert t[p] == Sum(f, p, e);
  }

  /** Halving the window 2m at `symbol`: node symbol + m holds the right half, the rest is the left half. */
  lemma DescendHalves(f: seq<int>, t: seq<int>, symbol: int, m: int, node: int)
    requires Holds(t, f) && IsPowerOfTwo(m) && symbol >= 1 && LowBit(symbol) >= 2 * m && symbol + m < |f|
    requires node == Sum(f, symbol, Min(symbol + 2 * m, |f|))
    ensures LowBit(symbol + m) == m && m < LowBit(symbol)
    ensures t[symbol + m] == Sum(f, symbol + m, Min(symbol + 2 * m, |f|))
    ensures node - t[symbol + m] == Sum(f, symbol, symbol + m)
    ensures Sum(f, 1, symbol + m) == Sum(f, 1, symbol) + Sum(f, symbol, symbol + m)
    ensures Sum(f, 1, Min(symbol + 2 * m, |f|)) == Sum(f, 1, symbol + m) + t[symbol + m]
  {
    PowerLowBit(m);
    LowBitOfSum(symbol, m);
    HeldNode(t, f, symbol + m);
    SumSplit(f, symbol, symbol + m, Min(symbol + 2 * m, |f|));
    SumSplit(f, 1, symbol, symbol + m);
    SumSplit(f, 1, symbol + m, Min(symbol + 2 * m, |f|));
  }

  /**
   * One halving of decode's descent from window 2m to window m: the target
   * lies in the left half, or in the right half, which node symbol + m
   * holds; past the table's end the window only narrows.
   */
  lemma DescendStep(f: seq<int>, t: seq<int>, moved: int, symbol: int, m: int, low: int, node: int)
    requires Holds(t, f) && IsPowerOfTwo(m) && Descending(f, moved, symbol, 2 * m, low, node)
    ensures symbol + m < |f| ==> LowBit(symbol + m) == m && m < LowBit(symbol)
    ensures symbol + m < |f| ==> var left := node - t[symbol + m];
      (left <= moved - low ==> Descending(f, moved, symbol + m, m, low + left, t[symbol + m])) &&
      (left > moved - low ==> Descending(f, moved, symbol, m, low, left))
    ensures symbol + m >= |f| ==> Descending(f, moved, symbol, m, low, node)
  {
    if symbol + m < |f| {
      DescendHalves(f, t, symbol, m, node);
      assert Min(symbol + m + m, |f|) == Min(symbol + 2 * m, |f|);
    }
  }

  /** Inside node s, by a power m below its lowest bit: what node s + m holds. */
  lemma EdgeNode(f: seq<int>, s: int, m: int)
    requires IsPowerOfTwo(m) && s >= 1 && m < LowBit(s) && s + m < |f|
    ensures LowBit(s + m) == m && TreeOf(f)[s + m] == Sum(f, s + m, Min(s + 2 * m, |f|))
  {
    PowerLowBit(m);
    LowBitOfSum(s, m);
    NodeOf(f, s + m);
  }
}
