/**
 * An input on which the digram index of appendToRootRule and the
 * search of the right sides part ways: c a a a c a b a a, appended one
 * terminal at a time to a new grammar (lastFixedSymbol 255, no output
 * device).
 *
 * The fourth a closes the triple a a a: nothing is recorded for its
 * second pair.  The sixth symbol, a, repeats c a, and Reduction Rule 2
 * makes the root V1 a a V1 with rule 1 = c a; on the way it removes the
 * entry of the first pair a a, the one the index held.  The root keeps
 * a pair a a that no entry points to, so when the ninth symbol forms a
 * a again the code appends it without reducing, where the transform
 * (KYGrammars.AppendToRootRuleOf) builds rule 2 = a a.
 */
module KYDigramTrace {
  import opened Wrappers
  import opened KYExpansion
  import opened KYGrammars
  import opened KYDigramIndex

  const C: Symbol := T(99)
  const A: Symbol := T(97)
  const B: Symbol := T(98)

  /** The grammar after `appended` symbols, with no rule ids waiting for reuse and nothing to install. */
  function Gr(rules: Rules, ruleSet: seq<RuleId>, counter: nat, appended: nat, added: bool, calls: seq<ContextCall>): Grammar
  {
    Grammar(rules, ruleSet, Some(0), counter, [], appended + 1, appended, added, [], 0, EatDataPeriodicity,
            255, false, 0, calls, None)
  }

  /** The context calls after the first reduction: rule 1 is installed as symbol 256. */
  const Installed: seq<ContextCall> := [InstallSymbol(256)]

  const Rank0: Rank := map[0 := 0]
  const Rank1: Rank := map[0 := 1, 1 := 0]

  /**
   * s after a step that appends el to the root as the element
   * s.nextElement, without a reduction: the root is now rule over the
   * elements ids, I is clear, and the list of x is now l.
   */
  function Grown(s: Indexed, rule: seq<Symbol>, ids: seq<nat>, el: Symbol, x: Symbol, l: seq<Entry>): Indexed
  {
    s.(g := s.g.(rules := s.g.rules[0 := rule], runCount := s.g.runCount + 1, size := s.g.size + 1, variablesAdded := false),
       elems := s.elems[0 := ids], syms := s.syms[s.nextElement := el], nextElement := s.nextElement + 1,
       index := s.index[x := l])
  }

  // The states of the code after each symbol: grammar, elements, symbols of the elements, index.

  function State0(): Indexed
  {
    NewIndexed(255, false, None)
  }

  function State1(): Indexed
  {
    Indexed(Gr(map[0 := [C]], [0], 1, 1, false, []), map[0 := [1]], map[1 := C], 2, map[])
  }

  function State2(): Indexed
  {
    Indexed(Gr(map[0 := [C, A]], [0], 1, 2, false, []), map[0 := [1, 2]], map[1 := C, 2 := A], 3,
            map[C := [Entry(2, 0)]])
  }

  function State3(): Indexed
  {
    Indexed(Gr(map[0 := [C, A, A]], [0], 1, 3, false, []), map[0 := [1, 2, 3]], map[1 := C, 2 := A, 3 := A], 4,
            map[C := [Entry(2, 0)], A := [Entry(3, 0)]])
  }

  /** After the triple a a a: no entry for the pair of elements 3 and 4. */
  function State4(): Indexed
  {
    Indexed(Gr(map[0 := [C, A, A, A]], [0], 1, 4, false, []), map[0 := [1, 2, 3, 4]],
            map[1 := C, 2 := A, 3 := A, 4 := A], 5,
            map[C := [Entry(2, 0)], A := [Entry(3, 0)]])
  }

  function State5(): Indexed
  {
    Indexed(Gr(map[0 := [C, A, A, A, C]], [0], 1, 5, false, []), map[0 := [1, 2, 3, 4, 5]],
            map[1 := C, 2 := A, 3 := A, 4 := A, 5 := C], 6,
            map[C := [Entry(2, 0)], A := [Entry(3, 0), Entry(5, 0)]])
  }

  /** After Reduction Rule 2 on c a: the pair of elements 3 and 4 (a a) is in the root, and in no list. */
  function State6(): Indexed
  {
    Indexed(Gr(map[0 := [V(1), A, A, V(1)], 1 := [C, A]], [0, 1], 2, 6, true, Installed),
            map[0 := [7, 3, 4, 8], 1 := [1, 2]],
            map[1 := C, 2 := A, 3 := A, 4 := A, 5 := C, 6 := A, 7 := V(1), 8 := V(1)], 9,
            map[C := [Entry(2, 1)], A := [Entry(8, 0)], V(1) := [Entry(3, 0)]])
  }

  function State7(): Indexed
  {
    Grown(State6(), [V(1), A, A, V(1), B], [7, 3, 4, 8, 9], B, V(1), [Entry(3, 0), Entry(9, 0)])
  }

  function State8(): Indexed
  {
    Grown(State7(), [V(1), A, A, V(1), B, A], [7, 3, 4, 8, 9, 10], A, B, [Entry(10, 0)])
  }

  /** The code's state after the ninth symbol: a a appended, and recorded as a new pair. */
  function State9AsWritten(): Indexed
  {
    Grown(State8(), [V(1), A, A, V(1), B, A, A], [7, 3, 4, 8, 9, 10, 11], A, A, [Entry(8, 0), Entry(11, 0)])
  }

  lemma Step1()
    ensures AppendAsWritten(State0(), Rank0, C) == Stepped(State1())
  {
    var s := State0();
    var s1 := Appended(s, Rank0, C);
    assert ReduceAsWritten(s, Rank0, C) == Stepped(s1);
    assert s.g.rules[0] + [C] == [C];
    assert s.elems[0] + [1] == [1];
    assert s1.g.rules == map[0 := [C]];
    assert s1.elems == map[0 := [1]];
    assert s1.syms == map[1 := C];
    assert Finished(Recorded(s1.g, C)) == s1.g;
  }

  lemma Step2()
    ensures AppendAsWritten(State1(), Rank0, A) == Stepped(State2())
  {
    var s := State1();
    var s1 := Appended(s, Rank0, A);
    assert IndexFind(s, C, A) == None;
    assert s.g.rules[0] + [A] == [C, A];
    assert s.elems[0] + [2] == [1, 2];
    assert [] + [Entry(2, 0)] == [Entry(2, 0)];
  }

  lemma Step3()
    ensures AppendAsWritten(State2(), Rank0, A) == Stepped(State3())
  {
    var s := State2();
    assert IndexFind(s, A, A) == None;
    assert s.g.rules[0] + [A] == [C, A, A];
    assert s.elems[0] + [3] == [1, 2, 3];
    assert [] + [Entry(3, 0)] == [Entry(3, 0)];
  }

  /** The triple: the index names the pair just formed, and nothing is recorded. */
  lemma Step4()
    ensures AppendAsWritten(State3(), Rank0, A) == Stepped(State4())
  {
    var s := State3();
    assert FirstWith(s.index[A], s.syms, A) == Some(0);
    assert PositionOf(s.elems[0], 3) == Some(2);
    assert s.g.rules[0] + [A] == [C, A, A, A];
    assert s.elems[0] + [4] == [1, 2, 3, 4];
  }

  lemma Step5()
    ensures AppendAsWritten(State4(), Rank0, C) == Stepped(State5())
  {
    var s := State4();
    assert FirstWith(s.index[A], s.syms, C) == None;
    assert s.g.rules[0] + [C] == [C, A, A, A, C];
    assert s.elems[0] + [5] == [1, 2, 3, 4, 5];
    assert [Entry(3, 0)] + [Entry(5, 0)] == [Entry(3, 0), Entry(5, 0)];
  }

  /** The symbols of the elements once Reduction Rule 2 has created elements 7 and 8. */
  const Syms6: map<nat, Symbol> := map[1 := C, 2 := A, 3 := A, 4 := A, 5 := C, 6 := A, 7 := V(1), 8 := V(1)]

  /**
   * The index updates of Reduction Rule 2 at step 6: the entry of a a
   * (origin 3) and of a c (origin 5) go, c a moves to rule 1, and the
   * new digrams V1 a and a V1 come in.
   */
  const Index6a: Index := map[C := [Entry(2, 0)], A := [Entry(5, 0)]]
  const Index6b: Index := map[C := [Entry(2, 1)], A := [Entry(5, 0)]]
  const Index6c: Index := map[C := [Entry(2, 1)], A := []]
  const Index6d: Index := map[C := [Entry(2, 1)], A := [], V(1) := [Entry(3, 0)]]

  lemma RemoveAtStep6()
    ensures Remove(State5().index, A, 3) == Index6a
    ensures Remove(Index6b, A, 5) == Index6c
  {
  }

  lemma ChangeAtStep6()
    ensures Change(Index6a, C, 2, 1) == Index6b
  {
    assert ChangeFirst([Entry(2, 0)], 2, 1) == [Entry(2, 1)] + [Entry(2, 0)][1..] == [Entry(2, 1)];
  }

  lemma AddAtStep6()
    ensures Add(Index6c, Syms6, V(1), 3, 0) == Index6d
    ensures Add(Index6d, Syms6, A, 8, 0) == State6().index
  {
    assert FirstWith([], Syms6, A) == None;
    assert FirstWith([], Syms6, V(1)) == None;
    assert [] + [Entry(3, 0)] == [Entry(3, 0)];
    assert [] + [Entry(8, 0)] == [Entry(8, 0)];
  }

  lemma Rule2IndexAtStep6(index: Index, syms: map<nat, Symbol>, P: seq<nat>)
    requires index == State5().index && syms == Syms6 && P == [1, 2, 3, 4, 5, 6]
    ensures Rule2Index(index, syms, 0, P, 0, 1, 7, 8) == State6().index
  {
    var newRoot := P[..0] + [7] + P[2..4] + [8];
    assert newRoot == [7, 3, 4, 8];
    assert SymOf(syms, P[1]) == A && SymOf(syms, P[0]) == C && SymOf(syms, newRoot[2]) == A;
    RemoveAtStep6();
    ChangeAtStep6();
    AddAtStep6();
    var i1 := Remove(index, A, P[2]);
    assert i1 == Index6a;
    var i2 := Change(i1, C, P[1], 1);
    assert i2 == Index6b;
    var i3 := Remove(i2, A, P[4]);
    assert i3 == Index6c;
    var i5 := Add(i3, syms, V(1), newRoot[1], 0);
    assert i5 == Index6d;
  }

  /** State5 with the sixth symbol appended, before the reduction. */
  function State5a(): Indexed
  {
    Indexed(Gr(map[0 := [C, A, A, A, C, A]], [0], 1, 6, false, []), map[0 := [1, 2, 3, 4, 5, 6]],
            map[1 := C, 2 := A, 3 := A, 4 := A, 5 := C, 6 := A], 7,
            map[C := [Entry(2, 0)], A := [Entry(3, 0), Entry(5, 0)]])
  }

  lemma AppendedAtStep6(s: Indexed)
    requires s == State5()
    ensures Appended(s, Rank0, A) == State5a()
  {
    assert s.g.rules[0] + [A] == [C, A, A, A, C, A];
    assert s.elems[0] + [6] == [1, 2, 3, 4, 5, 6];
  }

  /** The index names element 2, the a of c a, at position 1 of the root: the pair at 0. */
  lemma FindAtStep6(s: Indexed)
    requires s == State5()
    ensures IndexFind(s, C, A) == Some((Entry(2, 0), Some(Occurrence(0, 0))))
  {
    assert FirstWith(s.index[C], s.syms, A) == Some(0);
    assert PositionOf(s.elems[0], 2) == Some(1);
  }

  /** Reduction Rule 2 on the grammar: rule 1 = c a, the root V1 a a V1, symbol 256 to install. */
  lemma Reduction2AtStep6(g: Grammar)
    requires g == State5a().g
    ensures Reduction2Of(g, 0) == (Gr(State6().g.rules, [0, 1], 2, 6, false, []).(newSymbolToInstall := 256), 1)
  {
    var r := g.rules[0];
    assert r[..0] + [V(1)] + r[2..4] + [V(1)] == [V(1), A, A, V(1)];
    assert [r[0], r[1]] == [C, A];
    assert g.ruleSet + [1] == [0, 1];
    assert g.rules[1 := [C, A]][0 := [V(1), A, A, V(1)]] == State6().g.rules;
  }

  lemma ElementsAtStep6(s: Indexed)
    requires s == State5a()
    ensures Rule2Elements(s, 0, s.elems[0], 0, 1) == s.(elems := State6().elems, syms := Syms6, nextElement := 9, index := State6().index)
  {
    var P := s.elems[0];
    var nr := P[..0] + [s.nextElement] + P[2..|P| - 2] + [s.nextElement + 1];
    assert nr == [7, 3, 4, 8];
    assert [P[0], P[1]] == [1, 2];
    assert s.elems[0 := nr][1 := [P[0], P[1]]] == State6().elems;
    assert s.syms[7 := V(1)][8 := V(1)] == Syms6;
    Rule2IndexAtStep6(s.index, Syms6, P);
  }

  /** The grammar after the reduction of step 6, before its context calls. */
  function Reduced6(): Grammar
  {
    Gr(State6().g.rules, [0, 1], 2, 6, true, []).(newSymbolToInstall := 256)
  }

  lemma ReduceAtStep6(s1: Indexed, o: Occurrence)
    requires s1 == State5a() && o == Occurrence(0, 0)
    ensures ReduceAtAsWritten(s1, o, false) == Stepped(State6().(g := Reduced6()))
  {
    Reduction2AtStep6(s1.g);
    ElementsAtStep6(s1);
  }

  /** What AsWrittenReduced needs of State5 for the symbol a. */
  lemma FoundAtStep6(s: Indexed)
    requires s == State5()
    ensures ReduceReady(s.g, Rank0, A) && s.g.root == Some(0) && 0 in s.elems && !s.g.variablesAdded
    ensures var ids := s.elems[0];
      ids == [1, 2, 3, 4, 5] && IndexFind(s, SymOf(s.syms, ids[|ids| - 1]), A) == Some((Entry(2, 0), Some(Occurrence(0, 0))))
  {
    FindAtStep6(s);
  }

  /** The reduction of the sixth symbol, before its context calls. */
  lemma ReducedAtStep6(s: Indexed)
    requires s == State5()
    ensures ReduceAsWritten(s, Rank0, A) == Stepped(State6().(g := Reduced6()))
  {
    var o := Occurrence(0, 0);
    FoundAtStep6(s);
    AsWrittenReduced(s, Rank0, A, Entry(2, 0), o);
    AppendedAtStep6(s);
    ReduceAtStep6(Appended(s, Rank0, A), o);
  }

  /** The sixth symbol: Reduction Rule 2 on c a, with I clear before and set after. */
  lemma Step6()
    ensures AppendAsWritten(State5(), Rank0, A) == Stepped(State6())
  {
    ReducedAtStep6(State5());
    assert Finished(Recorded(Reduced6(), A)) == State6().g;
  }

  /** A step that finds no earlier occurrence in the index: the new digram is recorded for the root. */
  lemma RecordStep(s: Indexed, rank: Rank, el: Symbol, x: Symbol)
    requires ReduceReady(s.g, rank, el) && s.g.root == Some(0) && 0 in s.elems
    requires s.g.output.None? && !s.g.useContextForOutput && s.g.newSymbolToInstall == 0 && s.g.size + 1 < MaxGrammarSize
    requires var ids := s.elems[0];
      ids != [] && x == SymOf(s.syms, ids[|ids| - 1]) && IndexFind(s, x, el) == None
    ensures AppendAsWritten(s, rank, el) ==
      Stepped(Grown(s, s.g.rules[0] + [el], s.elems[0] + [s.nextElement], el, x,
                    (if x in s.index then s.index[x] else []) + [Entry(s.nextElement, 0)]))
  {
  }

  lemma Step7(s: Indexed)
    requires s == State6()
    ensures AppendAsWritten(s, Rank1, B) == Stepped(State7())
  {
    assert FirstWith(s.index[V(1)], s.syms, B) == None;
    RecordStep(s, Rank1, B, V(1));
    assert s.g.rules[0] + [B] == [V(1), A, A, V(1), B];
    assert s.elems[0] + [9] == [7, 3, 4, 8, 9];
    assert s.index[V(1)] + [Entry(9, 0)] == [Entry(3, 0), Entry(9, 0)];
  }

  /** What RecordStep needs of State7 for the symbol a. */
  lemma RecordsAt7(s: Indexed)
    requires s == State7()
    ensures ReduceReady(s.g, Rank1, A) && s.g.root == Some(0) && 0 in s.elems
    ensures s.g.output.None? && !s.g.useContextForOutput && s.g.newSymbolToInstall == 0 && s.g.size + 1 < MaxGrammarSize
    ensures s.elems[0] == [7, 3, 4, 8, 9] && SymOf(s.syms, 9) == B && IndexFind(s, B, A) == None
  {
    ConfigAt7(s);
    FindAt7(s);
    ReadyAt7(s);
  }

  /** A grammar whose root uses only terminals and V1, beside rule 1 = c a, is ranked by Rank1. */
  lemma ReadyWithRule1(g: Grammar, el: Symbol)
    requires g.root == Some(0) && g.rules.Keys == {0, 1} && g.rules[1] == [C, A] && g.ruleCounter == 2 && g.available == []
    requires forall k :: 0 <= k < |g.rules[0]| ==> g.rules[0][k].T? || g.rules[0][k] == V(1)
    requires el.T?
    ensures ReduceReady(g, Rank1, el)
  {
    assert Below(g.rules, Rank1, g.rules[1], 0);
  }

  /** The elements of a grammar of the root and rule 1 are in step with the symbols. */
  lemma ShapedWithRule1(s: Indexed)
    requires s.g.root == Some(0) && s.g.rules.Keys == {0, 1} && s.elems.Keys == {0, 1}
    requires |s.elems[0]| == |s.g.rules[0]| && |s.elems[1]| == |s.g.rules[1]|
    requires var ids := s.elems[0]; ids != [] && ids[|ids| - 1] !in ids[..|ids| - 1] && ids[|ids| - 1] !in s.elems[1]
    ensures Shaped(s)
  {
  }

  lemma ReadyAt6(s: Indexed)
    requires s == State6()
    ensures Ready(s, Rank1, B)
  {
    assert s.g.rules.Keys == {0, 1} && s.elems.Keys == {0, 1};
    assert s.g.rules[0] == [V(1), A, A, V(1)] && s.g.rules[1] == [C, A];
    assert s.elems[0] == [7, 3, 4, 8] && s.elems[1] == [1, 2];
    ShapedWithRule1(s);
    ReadyWithRule1(s.g, B);
  }

  lemma ReadyAt7(s: Indexed)
    requires s == State7()
    ensures Ready(s, Rank1, A)
  {
    assert s.g.rules.Keys == {0, 1} && s.elems.Keys == {0, 1};
    assert s.g.rules[0] == [V(1), A, A, V(1), B] && s.g.rules[1] == [C, A];
    assert s.elems[0] == [7, 3, 4, 8, 9] && s.elems[1] == [1, 2];
    ShapedWithRule1(s);
    ReadyWithRule1(s.g, A);
  }

  lemma ConfigAt7(s: Indexed)
    requires s == State7()
    ensures s.g.output.None? && !s.g.useContextForOutput && s.g.newSymbolToInstall == 0 && s.g.size + 1 < MaxGrammarSize
  {
  }

  lemma FindAt7(s: Indexed)
    requires s == State7()
    ensures s.elems[0] == [7, 3, 4, 8, 9] && SymOf(s.syms, 9) == B && IndexFind(s, B, A) == None
  {
  }

  lemma Step8(s: Indexed)
    requires s == State7()
    ensures AppendAsWritten(s, Rank1, A) == Stepped(State8())
  {
    RecordsAt7(s);
    RecordStep(s, Rank1, A, B);
    assert s.g.rules[0] + [A] == [V(1), A, A, V(1), B, A];
    assert s.elems[0] + [10] == [7, 3, 4, 8, 9, 10];
    assert [] + [Entry(10, 0)] == [Entry(10, 0)];
  }

  lemma ReadyAt8(s: Indexed)
    requires s == State8()
    ensures Ready(s, Rank1, A)
  {
    assert s.g.rules.Keys == {0, 1} && s.elems.Keys == {0, 1};
    assert s.g.rules[0] == [V(1), A, A, V(1), B, A] && s.g.rules[1] == [C, A];
    assert s.elems[0] == [7, 3, 4, 8, 9, 10] && s.elems[1] == [1, 2];
    ShapedWithRule1(s);
    ReadyWithRule1(s.g, A);
  }

  lemma ConfigAt8(s: Indexed)
    requires s == State8()
    ensures s.g.output.None? && !s.g.useContextForOutput && s.g.newSymbolToInstall == 0 && s.g.size + 1 < MaxGrammarSize
  {
  }

  /** The list of a holds one entry, element 8, whose symbol is V1: no pair a a is found. */
  lemma FindAt8(s: Indexed)
    requires s == State8()
    ensures s.elems[0] == [7, 3, 4, 8, 9, 10] && SymOf(s.syms, 10) == A && IndexFind(s, A, A) == None
  {
    assert s.index[A] == [Entry(8, 0)];
    assert SymOf(s.syms, 8) == V(1);
  }

  /** What RecordStep needs of State8 for the symbol a. */
  lemma RecordsAt8(s: Indexed)
    requires s == State8()
    ensures ReduceReady(s.g, Rank1, A) && s.g.root == Some(0) && 0 in s.elems
    ensures s.g.output.None? && !s.g.useContextForOutput && s.g.newSymbolToInstall == 0 && s.g.size + 1 < MaxGrammarSize
    ensures s.elems[0] == [7, 3, 4, 8, 9, 10] && SymOf(s.syms, 10) == A && IndexFind(s, A, A) == None
  {
    ReadyAt8(s);
    ConfigAt8(s);
    FindAt8(s);
  }

  /** The ninth symbol: the list of a holds only a V1, so the pair a a is appended without a reduction. */
  lemma Step9(s: Indexed)
    requires s == State8() && Ready(s, Rank1, A)
    ensures AppendAsWritten(s, Rank1, A) == Stepped(State9AsWritten())
  {
    RecordsAt8(s);
    RecordStep(s, Rank1, A, A);
    assert s.g.rules[0] + [A] == [V(1), A, A, V(1), B, A, A];
    assert s.elems[0] + [11] == [7, 3, 4, 8, 9, 10, 11];
    assert s.index[A] + [Entry(11, 0)] == [Entry(8, 0), Entry(11, 0)];
  }

  // ---------------------------------------------------------------------
  // The transform on the same symbols
  // ---------------------------------------------------------------------

  /** Where the index names what the search of the right sides finds, appendToRootRule is the transform's step. */
  lemma AgreesAt(s: Indexed, rank: Rank, el: Symbol)
    requires Ready(s, rank, el)
    requires s.elems[s.g.root.value] != [] ==> IndexOccurrence(s, LastSym(s), el) == FindDigram(s.g, LastOfRoot(s.g), el)
    requires AppendAsWritten(s, rank, el).Stepped?
    ensures AppendToRootRuleOf(s.g, rank, el) == Done(AppendAsWritten(s, rank, el).s.g)
  {
    ReduceAsWrittenAgrees(s, rank, el);
  }

  lemma ReadyAt0(s: Indexed)
    requires s == State0()
    ensures Ready(s, Rank0, C)
  {
  }

  lemma Agree1(s: Indexed)
    requires s == State0()
    ensures AppendToRootRuleOf(s.g, Rank0, C) == Done(State1().g)
  {
    Step1();
    ReadyAt0(s);
    AgreesAt(s, Rank0, C);
  }

  lemma ReadyAt1(s: Indexed)
    requires s == State1()
    ensures Ready(s, Rank0, A)
  {
  }

  lemma DigramAt1(s: Indexed)
    requires s == State1()
    ensures LastSym(s) == C && LastOfRoot(s.g) == C
    ensures FindDigram(s.g, C, A) == None && IndexOccurrence(s, C, A) == None
  {
  }

  lemma Agree2(s: Indexed)
    requires s == State1()
    ensures AppendToRootRuleOf(s.g, Rank0, A) == Done(State2().g)
  {
    Step2();
    ReadyAt1(s);
    DigramAt1(s);
    AgreesAt(s, Rank0, A);
  }

  lemma ReadyAt2(s: Indexed)
    requires s == State2()
    ensures Ready(s, Rank0, A)
  {
  }

  lemma DigramAt2(s: Indexed)
    requires s == State2()
    ensures LastSym(s) == A && LastOfRoot(s.g) == A
    ensures FindDigram(s.g, A, A) == None && IndexOccurrence(s, A, A) == None
  {
  }

  lemma Agree3(s: Indexed)
    requires s == State2()
    ensures AppendToRootRuleOf(s.g, Rank0, A) == Done(State3().g)
  {
    Step3();
    ReadyAt2(s);
    DigramAt2(s);
    AgreesAt(s, Rank0, A);
  }

  lemma ReadyAt3(s: Indexed)
    requires s == State3()
    ensures Ready(s, Rank0, A)
  {
  }

  lemma DigramAt3(s: Indexed)
    requires s == State3()
    ensures LastSym(s) == A && LastOfRoot(s.g) == A
    ensures FindDigram(s.g, A, A) == Some(Occurrence(0, 1)) && IndexOccurrence(s, A, A) == Some(Occurrence(0, 1))
  {
    assert FindPairFrom(s.g.rules[0], A, A, 0) == Some(1);
    assert FirstWith(s.index[A], s.syms, A) == Some(0);
    assert PositionOf(s.elems[0], 3) == Some(2);
  }

  lemma Agree4(s: Indexed)
    requires s == State3()
    ensures AppendToRootRuleOf(s.g, Rank0, A) == Done(State4().g)
  {
    Step4();
    ReadyAt3(s);
    DigramAt3(s);
    AgreesAt(s, Rank0, A);
  }

  lemma ReadyAt4(s: Indexed)
    requires s == State4()
    ensures Ready(s, Rank0, C)
  {
  }

  lemma DigramAt4(s: Indexed)
    requires s == State4()
    ensures LastSym(s) == A && LastOfRoot(s.g) == A
    ensures FindDigram(s.g, A, C) == None && IndexOccurrence(s, A, C) == None
  {
  }

  lemma Agree5(s: Indexed)
    requires s == State4()
    ensures AppendToRootRuleOf(s.g, Rank0, C) == Done(State5().g)
  {
    Step5();
    ReadyAt4(s);
    DigramAt4(s);
    AgreesAt(s, Rank0, C);
  }

  lemma ReadyAt5(s: Indexed)
    requires s == State5()
    ensures Ready(s, Rank0, A)
  {
  }

  lemma DigramAt5(s: Indexed)
    requires s == State5()
    ensures LastSym(s) == C && LastOfRoot(s.g) == C
    ensures FindDigram(s.g, C, A) == Some(Occurrence(0, 0)) && IndexOccurrence(s, C, A) == Some(Occurrence(0, 0))
  {
  }

  lemma Agree6(s: Indexed)
    requires s == State5()
    ensures AppendToRootRuleOf(s.g, Rank0, A) == Done(State6().g)
  {
    Step6();
    ReadyAt5(s);
    DigramAt5(s);
    AgreesAt(s, Rank0, A);
  }

  lemma DigramAt6(s: Indexed)
    requires s == State6()
    ensures LastSym(s) == V(1) && LastOfRoot(s.g) == V(1)
    ensures FindDigram(s.g, V(1), B) == None && IndexOccurrence(s, V(1), B) == None
  {
  }

  lemma Agree7(s: Indexed)
    requires s == State6()
    ensures AppendToRootRuleOf(s.g, Rank1, B) == Done(State7().g)
  {
    Step7(s);
    ReadyAt6(s);
    DigramAt6(s);
    AgreesAt(s, Rank1, B);
  }

  lemma DigramAt7(s: Indexed)
    requires s == State7()
    ensures LastSym(s) == B && LastOfRoot(s.g) == B
    ensures FindDigram(s.g, B, A) == None && IndexOccurrence(s, B, A) == None
  {
  }

  lemma Agree8(s: Indexed)
    requires s == State7()
    ensures AppendToRootRuleOf(s.g, Rank1, A) == Done(State8().g)
  {
    Step8(s);
    ReadyAt7(s);
    DigramAt7(s);
    AgreesAt(s, Rank1, A);
  }

  /** The pair a a at 1 of the root, which the index no longer holds. */
  lemma DigramAt8(s: Indexed)
    requires s == State8()
    ensures LastOfRoot(s.g) == A && FindDigram(s.g, A, A) == Some(Occurrence(0, 1))
  {
    assert s.g.rules[0] == [V(1), A, A, V(1), B, A];
    assert FindPairFrom(s.g.rules[0], A, A, 0) == Some(1);
  }

  /** The right sides the transform builds from the ninth symbol: rule 2 = a a, used twice in the root. */
  const Rules9: Rules := map[0 := [V(1), V(2), V(1), B, V(2)], 1 := [C, A], 2 := [A, A]]

  function Transform9(): Grammar
  {
    Gr(Rules9, [0, 1, 2], 3, 9, true, Installed + [InstallSymbol(257)])
  }

  lemma Reduction2At9(g: Grammar)
    requires g.root == Some(0) && g.rules.Keys == {0, 1} && g.rules[0] == [V(1), A, A, V(1), B, A, A] && g.rules[1] == [C, A]
    requires g.ruleSet == [0, 1] && g.ruleCounter == 2 && g.available == [] && g.lastFixedSymbol == 255
    ensures Reduction2Of(g, 1).0 == g.(rules := Rules9, ruleSet := [0, 1, 2], ruleCounter := 3, newSymbolToInstall := 257)
  {
    var r := g.rules[0];
    assert r[..1] + [V(2)] + r[3..5] + [V(2)] == [V(1), V(2), V(1), B, V(2)];
    assert [r[1], r[2]] == [A, A];
    assert g.ruleSet + [2] == [0, 1, 2];
    assert g.rules[2 := [A, A]][0 := [V(1), V(2), V(1), B, V(2)]] == Rules9;
  }

  lemma Transform9At(s: Indexed)
    requires s == State8() && Ready(s, Rank1, A)
    ensures AppendToRootRuleOf(s.g, Rank1, A) == Done(Transform9())
  {
    DigramAt8(s);
    ReduceRule2(s.g, Rank1, A, Occurrence(0, 1));
    PushedAt8(s);
    Reduction2At9(Pushed(s.g, Rank1, A));
  }

  lemma PushedAt8(s: Indexed)
    requires s == State8() && Ready(s, Rank1, A)
    ensures var g := Pushed(s.g, Rank1, A);
      g.root == Some(0) && g.rules.Keys == {0, 1} && g.rules[0] == [V(1), A, A, V(1), B, A, A] && g.rules[1] == [C, A]
      && g.ruleSet == [0, 1] && g.ruleCounter == 2 && g.available == [] && g.lastFixedSymbol == 255
      && g == Transform9().(rules := g.rules, ruleSet := [0, 1], ruleCounter := 2, variablesAdded := false, calls := Installed)
  {
  }

  // ---------------------------------------------------------------------
  // The counterexample
  // ---------------------------------------------------------------------

  /**
   * The code appending the symbols of steps one by one; each comes with
   * a rank for the grammar it is appended to, which the expansion of
   * the output needs.  Stopped where a step stops, or where its
   * precondition fails.
   */
  function RunAsWritten(s: Indexed, steps: seq<(Rank, Symbol)>): Step
    decreases |steps|
  {
    if steps == [] then Stepped(s)
    else
      var (rank, el) := steps[0];
      if ReduceReady(s.g, rank, el) then
        match AppendAsWritten(s, rank, el)
        case Stopped => Stopped
        case Stepped(t) => RunAsWritten(t, steps[1..])
      else Stopped
  }

  /** The transform (KYGrammars.AppendToRootRuleOf) on the same steps. */
  function Run(g: Grammar, steps: seq<(Rank, Symbol)>): Outcome
    decreases |steps|
  {
    if steps == [] then Done(g)
    else
      var (rank, el) := steps[0];
      if ReduceReady(g, rank, el) then
        match AppendToRootRuleOf(g, rank, el)
        case Fatal => Fatal
        case Done(h) => Run(h, steps[1..])
      else Fatal
  }

  /** One step of both runs, where the code goes from s to t and the transform from s.g to t.g. */
  lemma RunStep(s: Indexed, t: Indexed, steps: seq<(Rank, Symbol)>)
    requires steps != [] && ReduceReady(s.g, steps[0].0, steps[0].1)
    requires AppendAsWritten(s, steps[0].0, steps[0].1) == Stepped(t)
    requires AppendToRootRuleOf(s.g, steps[0].0, steps[0].1) == Done(t.g)
    ensures RunAsWritten(s, steps) == RunAsWritten(t, steps[1..])
    ensures Run(s.g, steps) == Run(t.g, steps[1..])
  {
  }

  /** The last step of both runs, where the code reaches t and the transform h. */
  lemma RunLast(s: Indexed, t: Indexed, h: Grammar, steps: seq<(Rank, Symbol)>)
    requires |steps| == 1 && ReduceReady(s.g, steps[0].0, steps[0].1)
    requires AppendAsWritten(s, steps[0].0, steps[0].1) == Stepped(t)
    requires AppendToRootRuleOf(s.g, steps[0].0, steps[0].1) == Done(h)
    ensures RunAsWritten(s, steps) == Stepped(t) && Run(s.g, steps) == Done(h)
  {
    assert steps[1..] == [];
  }

  /** c a a a c a b a a, each symbol with the rank of the grammar it is appended to. */
  const Input: seq<(Rank, Symbol)> :=
    [(Rank0, C), (Rank0, A), (Rank0, A), (Rank0, A), (Rank0, C), (Rank0, A), (Rank1, B), (Rank1, A), (Rank1, A)]

  lemma RunAt0(steps: seq<(Rank, Symbol)>)
    requires steps == Input[0..]
    ensures RunAsWritten(State0(), steps) == RunAsWritten(State1(), Input[1..])
    ensures Run(State0().g, steps) == Run(State1().g, Input[1..])
  {
    assert steps[0] == (Rank0, C) && steps[1..] == Input[1..];
    Step1();
    Agree1(State0());
    ReadyAt0(State0());
    RunStep(State0(), State1(), steps);
  }

  lemma RunAt1(steps: seq<(Rank, Symbol)>)
    requires steps == Input[1..]
    ensures RunAsWritten(State1(), steps) == RunAsWritten(State2(), Input[2..])
    ensures Run(State1().g, steps) == Run(State2().g, Input[2..])
  {
    assert steps[0] == (Rank0, A) && steps[1..] == Input[2..];
    Step2();
    Agree2(State1());
    ReadyAt1(State1());
    RunStep(State1(), State2(), steps);
  }

  lemma RunAt2(steps: seq<(Rank, Symbol)>)
    requires steps == Input[2..]
    ensures RunAsWritten(State2(), steps) == RunAsWritten(State3(), Input[3..])
    ensures Run(State2().g, steps) == Run(State3().g, Input[3..])
  {
    assert steps[0] == (Rank0, A) && steps[1..] == Input[3..];
    Step3();
    Agree3(State2());
    ReadyAt2(State2());
    RunStep(State2(), State3(), steps);
  }

  lemma RunAt3(steps: seq<(Rank, Symbol)>)
    requires steps == Input[3..]
    ensures RunAsWritten(State3(), steps) == RunAsWritten(State4(), Input[4..])
    ensures Run(State3().g, steps) == Run(State4().g, Input[4..])
  {
    assert steps[0] == (Rank0, A) && steps[1..] == Input[4..];
    Step4();
    Agree4(State3());
    ReadyAt3(State3());
    RunStep(State3(), State4(), steps);
  }

  lemma RunAt4(steps: seq<(Rank, Symbol)>)
    requires steps == Input[4..]
    ensures RunAsWritten(State4(), steps) == RunAsWritten(State5(), Input[5..])
    ensures Run(State4().g, steps) == Run(State5().g, Input[5..])
  {
    assert steps[0] == (Rank0, C) && steps[1..] == Input[5..];
    Step5();
    Agree5(State4());
    ReadyAt4(State4());
    RunStep(State4(), State5(), steps);
  }

  lemma RunAt5(steps: seq<(Rank, Symbol)>)
    requires steps == Input[5..]
    ensures RunAsWritten(State5(), steps) == RunAsWritten(State6(), Input[6..])
    ensures Run(State5().g, steps) == Run(State6().g, Input[6..])
  {
    assert steps[0] == (Rank0, A) && steps[1..] == Input[6..];
    Step6();
    Agree6(State5());
    ReadyAt5(State5());
    RunStep(State5(), State6(), steps);
  }

  lemma RunAt6(steps: seq<(Rank, Symbol)>)
    requires steps == Input[6..]
    ensures RunAsWritten(State6(), steps) == RunAsWritten(State7(), Input[7..])
    ensures Run(State6().g, steps) == Run(State7().g, Input[7..])
  {
    assert steps[0] == (Rank1, B) && steps[1..] == Input[7..];
    Step7(State6());
    Agree7(State6());
    ReadyAt6(State6());
    RunStep(State6(), State7(), steps);
  }

  lemma RunAt7(steps: seq<(Rank, Symbol)>)
    requires steps == Input[7..]
    ensures RunAsWritten(State7(), steps) == RunAsWritten(State8(), Input[8..])
    ensures Run(State7().g, steps) == Run(State8().g, Input[8..])
  {
    assert steps[0] == (Rank1, A) && steps[1..] == Input[8..];
    Step8(State7());
    Agree8(State7());
    ReadyAt7(State7());
    RunStep(State7(), State8(), steps);
  }

  /** The code and the transform agree on the first eight symbols. */
  lemma TraceToState8()
    ensures RunAsWritten(State0(), Input) == RunAsWritten(State8(), Input[8..])
    ensures Run(State0().g, Input) == Run(State8().g, Input[8..])
  {
    assert Input[0..] == Input;
    RunAt0(Input[0..]);
    RunAt1(Input[1..]);
    RunAt2(Input[2..]);
    RunAt3(Input[3..]);
    RunAt4(Input[4..]);
    RunAt5(Input[5..]);
    RunAt6(Input[6..]);
    RunAt7(Input[7..]);
  }

  /** The ninth symbol, for both. */
  lemma RunAt8(steps: seq<(Rank, Symbol)>)
    requires steps == Input[8..]
    ensures RunAsWritten(State8(), steps) == Stepped(State9AsWritten())
    ensures Run(State8().g, steps) == Done(Transform9())
  {
    assert |steps| == 1 && steps[0] == (Rank1, A);
    ReadyAt8(State8());
    Step9(State8());
    Transform9At(State8());
    RunLast(State8(), State9AsWritten(), Transform9(), steps);
  }

  /**
   * After c a a a c a b a the root holds the pair a a at 1, and the
   * search of the right sides finds it, but the index yields nothing
   * for it: so on the ninth symbol, a, the code appends, where the
   * transform creates rule 2 = a a.
   */
  lemma IndexLosesPair()
    ensures State8().g.rules[0][1..3] == [A, A] && FindDigram(State8().g, A, A) == Some(Occurrence(0, 1))
    ensures IndexOccurrence(State8(), A, A) == None
    ensures RunAsWritten(NewIndexed(255, false, None), Input) == Stepped(State9AsWritten())
    ensures State9AsWritten().g.rules.Keys == {0, 1} && State9AsWritten().g.rules[0] == [V(1), A, A, V(1), B, A, A]
    ensures Run(NewGrammar(255, false, None), Input) == Done(Transform9())
    ensures Transform9().rules[2] == [A, A] && Transform9().rules[0] == [V(1), V(2), V(1), B, V(2)]
  {
    TraceToState8();
    RunAt8(Input[8..]);
    PairAt8();
    NinthRules();
  }

  lemma PairAt8()
    ensures State8().g.rules[0][1..3] == [A, A] && FindDigram(State8().g, A, A) == Some(Occurrence(0, 1))
    ensures IndexOccurrence(State8(), A, A) == None
  {
    DigramAt8(State8());
    FindAt8(State8());
    assert State8().g.rules[0] == [V(1), A, A, V(1), B, A];
  }

  lemma NinthRules()
    ensures State9AsWritten().g.rules.Keys == {0, 1} && State9AsWritten().g.rules[0] == [V(1), A, A, V(1), B, A, A]
    ensures Transform9().rules[2] == [A, A] && Transform9().rules[0] == [V(1), V(2), V(1), B, V(2)]
  {
  }
}
