/**
 * The helper script that prints generalised Fibonacci numbers: it keeps a
 * window of the last `order` numbers, starting with `order` ones, and
 * each step appends the sum of the window and drops its oldest element.
 */
module FibTool {
  import Fibonacci

  /** The sum of a sequence, added up from the front as the script's inner loop does. */
  function Sum(s: seq<int>): int
  {
    if s == [] then 0 else Sum(s[..|s| - 1]) + s[|s| - 1]
  }

  /**
   * The generalised Fibonacci numbers of `order`: the first `order` are 1,
   * every later one is the sum of the `order` before it.
   */
  function G(order: nat, n: nat): nat
    decreases n, 1
  {
    if n < order then 1 else SumRange(order, n - order, order)
  }

  /** G(order, lo) + ... + G(order, lo + m - 1). */
  function SumRange(order: nat, lo: nat, m: nat): nat
    decreases lo + m, 0
  {
    if m == 0 then 0 else SumRange(order, lo, m - 1) + G(order, lo + m - 1)
  }

  /** The window after `k` steps: G(order, k) to G(order, k + order - 1). */
  function WindowAt(order: nat, k: nat): (w: seq<int>)
    ensures |w| == order
  {
    seq(order, j requires 0 <= j < order => G(order, k + j))
  }

  /** The window's sum is the next number of the series. */
  lemma {:induction false} SumWindow(order: nat, k: nat, m: nat)
    requires m <= order
    ensures Sum(WindowAt(order, k)[..m]) == SumRange(order, k, m)
    decreases m
  {
    if m > 0 {
      assert WindowAt(order, k)[..m][..m - 1] == WindowAt(order, k)[..m - 1];
      SumWindow(order, k, m - 1);
    }
  }

  /** One step of the script turns the window after k steps into the window after k + 1. */
  lemma WindowStep(order: nat, k: nat)
    requires order >= 1
    ensures WindowAt(order, k)[1..] + [Sum(WindowAt(order, k))] == WindowAt(order, k + 1)
  {
    var w := WindowAt(order, k);
    SumWindow(order, k, order);
    assert w[..order] == w;
    assert G(order, k + order) == SumRange(order, k, order);
    var next := w[1..] + [Sum(w)];
    forall j | 0 <= j < order
      ensures next[j] == WindowAt(order, k + 1)[j]
    {
      if j < order - 1 {
        assert next[j] == w[j + 1];
      }
    }
  }

  /** Every number of the series is positive. */
  lemma {:induction false} GPositive(order: nat, n: nat)
    requires order >= 1
    ensures G(order, n) >= 1
    decreases n
  {
    if n >= order {
      GPositive(order, n - 1);
      assert SumRange(order, n - order, order) == SumRange(order, n - order, order - 1) + G(order, n - 1);
    }
  }

  /** The series never decreases. */
  lemma GMonotone(order: nat, n: nat)
    requires order >= 1
    ensures G(order, n) <= G(order, n + 1)
  {
    if n + 1 >= order {
      if n < order {
        GPositive(order, n);
        assert SumRange(order, 0, order) == SumRange(order, 0, order - 1) + G(order, order - 1);
      } else {
        assert SumRange(order, n + 1 - order, order) == SumRange(order, n + 1 - order, order - 1) + G(order, n);
      }
    }
  }

  /** Of order 2 each number is the sum of the two before it. */
  lemma GOrderTwoStep(n: nat)
    ensures G(2, n + 2) == G(2, n) + G(2, n + 1)
  {
    assert G(2, n + 2) == SumRange(2, n, 2);
    assert SumRange(2, n, 2) == SumRange(2, n, 1) + G(2, n + 1);
    assert SumRange(2, n, 1) == SumRange(2, n, 0) + G(2, n);
  }

  /** Of order 2 the series is 1, 1, 2, 3, 5, ...: after its leading 1 it is the Fibonacci codec's table 1, 2, 3, 5, .... */
  lemma {:induction false} OrderTwo(n: nat)
    ensures G(2, n + 1) == Fibonacci.Fib(n)
    ensures G(2, n + 2) == Fibonacci.Fib(n + 1)
    decreases n
  {
    Fibonacci.FibRec(n + 1);
    GOrderTwoStep(n);
    if n == 0 {
      Fibonacci.FibRec(0);
      assert G(2, 0) == 1 && G(2, 1) == 1;
    } else {
      OrderTwo(n - 1);
    }
  }

  /** The script's two refusals; each exits with status 1. */
  datatype Refusal = NotEnoughParameters | OrderTooSmall

  /** One number written to standard output and the text that follows it. */
  datatype Item = Item(value: int, after: string)

  datatype Run = Output(items: seq<Item>) | Refused(reason: Refusal)

  /** The exit status of a run. */
  function ExitStatus(r: Run): int
  {
    if r.Refused? then 1 else 0
  }

  /** The number of items the script writes when asked for `nr`: range(nr - 1) iterations, then the last one. */
  function PrintedCount(nr: int): nat
  {
    (if nr - 1 > 0 then nr - 1 else 0) + 1
  }

  /** The values written: the second newest window element after each step, G(order, i + order - 2). */
  function Series(order: nat, count: nat): seq<int>
    requires order >= 2
  {
    seq(count, i requires 0 <= i < count => G(order, i + order - 2))
  }

  /**
   * The script on `argCount` command-line arguments, of which the first two
   * evaluate to `nr` and `order`.
   */
  method RunScript(argCount: nat, nr: int, order: int) returns (r: Run)
    ensures argCount < 2 <==> r == Refused(NotEnoughParameters)
    ensures argCount >= 2 && order < 2 <==> r == Refused(OrderTooSmall)
    ensures argCount >= 2 && order >= 2 ==>
      r.Output? && |r.items| == PrintedCount(nr) &&
      (forall i :: 0 <= i < |r.items| ==> r.items[i].value == Series(order, PrintedCount(nr))[i]) &&
      (forall i :: 0 <= i < |r.items| - 1 ==> r.items[i].after == ", ") &&
      r.items[|r.items| - 1].after == "\n"
  {
    if argCount < 2 {
      return Refused(NotEnoughParameters);
    }
    if order < 2 {
      return Refused(OrderTooSmall);
    }
    var f := seq(order, _ => 1);
    assert f == WindowAt(order, 0);
    var out: seq<Item> := [];
    var steps := if nr - 1 > 0 then nr - 1 else 0;
    var n := 0;
    while n < steps
      invariant 0 <= n <= steps
      invariant f == WindowAt(order, n)
      invariant |out| == n
      invariant forall i :: 0 <= i < n ==> out[i] == Item(G(order, i + order - 2), ", ")
    {
      out := out + [Item(f[|f| - 2], ", ")];
      var nf := 0;
      var i := 0;
      while i < |f|
        invariant 0 <= i <= |f|
        invariant nf == Sum(f[..i])
      {
        assert f[..i + 1][..i] == f[..i];
        nf := nf + f[i];
        i := i + 1;
      }
      assert f[..|f|] == f;
      WindowStep(order, n);
      f := f[1..] + [nf];
      n := n + 1;
    }
    out := out + [Item(f[|f| - 2], "\n")];
    r := Output(out);
  }

  /** Every value the script prints is positive, and each is at least the one before. */
  lemma SeriesPositiveNondecreasing(order: nat, count: nat)
    requires order >= 2
    ensures forall i :: 0 <= i < count ==> Series(order, count)[i] >= 1
    ensures forall i :: 0 <= i < count - 1 ==> Series(order, count)[i] <= Series(order, count)[i + 1]
  {
    forall i | 0 <= i < count
      ensures Series(order, count)[i] >= 1
    {
      GPositive(order, i + order - 2);
    }
    forall i | 0 <= i < count - 1
      ensures Series(order, count)[i] <= Series(order, count)[i + 1]
    {
      GMonotone(order, i + order - 2);
    }
  }
}
