/**
 * The digram index of KYGrammar as the code keeps it.  Every symbol
 * has a list of neighbours (terminalDigrams for terminals,
 * variableDigrams for variables): for a digram x y, the list of x holds
 * the element y, its origin, and the rule holding the pair.
 * appendToRootRule looks the earlier occurrence of the new digram up in
 * this index rather than in the right sides, and the reduction rules
 * update it with DIGRAM_ADD, DIGRAM_REMOVE and DIGRAM_CHANGE.
 *
 * The grammar functions of KYGrammars search the right sides, as the
 * transform is defined.  The index of the code does not always hold
 * every digram of the grammar: appendToRootRule records nothing for
 * the second pair of a triple x x x, so once Reduction Rule 2 removes
 * the first pair's entry, the second pair is no longer found.
 * IndexLosesPair shows an input on which this changes the grammar.
 *
 * Right sides are kept here both as symbols (the grammar of
 * KYGrammars, reduced by its own functions) and as element identities,
 * which the index entries point to.
 */
module KYDigramIndex {
  import opened Wrappers
  import opened KYExpansion
  import opened KYGrammars

  /** RuleElementNeighbour: the second element of a digram, and the rule recorded as holding it. */
  datatype Entry = Entry(origin: nat, rule: RuleId)

  type Index = map<Symbol, seq<Entry>>

  datatype Indexed = Indexed(
    g: Grammar,                   // the grammar, as in KYGrammars
    elems: map<RuleId, seq<nat>>, // the elements of every right side, in order
    syms: map<nat, Symbol>,       // the symbol of every element created so far
    nextElement: nat,                   // the identity the next element receives
    index: Index)                 // the neighbour lists, by first symbol

  /**
   * A step either completes, or stops the program: with FATAL, or where
   * the code would follow a missing element (an absent predecessor, or
   * an entry whose origin is not where the entry says).
   */
  datatype Step = Stepped(s: Indexed) | Stopped

  /** The grammar right after construction: an empty root rule and an empty index. */
  function NewIndexed(lastFixedSymbol: int, useContextForOutput: bool, output: Option<seq<int>>): (s: Indexed)
    ensures s.g == NewGrammar(lastFixedSymbol, useContextForOutput, output)
    ensures s.elems == map[0 := []] && s.index == map[]
  {
    Indexed(NewGrammar(lastFixedSymbol, useContextForOutput, output), map[0 := []], map[], 1, map[])
  }

  /** The symbol of element e. */
  function SymOf(syms: map<nat, Symbol>, e: nat): Symbol
  {
    if e in syms then syms[e] else T(0)
  }

  /** The first position of e in s. */
  function PositionOf(s: seq<nat>, e: nat): (r: Option<nat>)
    ensures r.Some? ==> r.value < |s| && s[r.value] == e && e !in s[..r.value]
    ensures r.None? ==> e !in s
  {
    if s == [] then None
    else if s[0] == e then Some(0)
    else match PositionOf(s[1..], e)
      case None => None
      case Some(k) => assert s[..k + 1] == [s[0]] + s[1..][..k]; Some(k + 1)
  }

  /** The first entry of l whose origin has symbol y: the test of appendToRootRule and of DIGRAM_ADD. */
  function FirstWith(l: seq<Entry>, syms: map<nat, Symbol>, y: Symbol): (r: Option<nat>)
    ensures r.Some? ==> r.value < |l| && SymOf(syms, l[r.value].origin) == y
    ensures r.Some? ==> forall k :: 0 <= k < r.value ==> SymOf(syms, l[k].origin) != y
    ensures r.None? ==> forall k :: 0 <= k < |l| ==> SymOf(syms, l[k].origin) != y
  {
    if l == [] then None
    else if SymOf(syms, l[0].origin) == y then Some(0)
    else match FirstWith(l[1..], syms, y)
      case None => None
      case Some(k) => Some(k + 1)
  }

  /** The list without its first entry for origin e. */
  function RemoveFirst(l: seq<Entry>, e: nat): (r: seq<Entry>)
    ensures (exists k :: 0 <= k < |l| && l[k].origin == e) ==> |r| + 1 == |l|
    ensures (forall k :: 0 <= k < |l| ==> l[k].origin != e) ==> r == l
  {
    if l == [] then []
    else if l[0].origin == e then l[1..]
    else
      assert l == [l[0]] + l[1..];
      [l[0]] + RemoveFirst(l[1..], e)
  }

  /** The list with the rule of its first entry for origin e set to m. */
  function ChangeFirst(l: seq<Entry>, e: nat, m: RuleId): (r: seq<Entry>)
    ensures |r| == |l|
    ensures forall k :: 0 <= k < |l| ==> r[k].origin == l[k].origin
  {
    if l == [] then []
    else if l[0].origin == e then [Entry(e, m)] + l[1..]
    else [l[0]] + ChangeFirst(l[1..], e, m)
  }

  /** DIGRAM_REMOVE(x, e): the entry of origin e leaves the list of x. */
  function Remove(index: Index, x: Symbol, e: nat): (r: Index)
    ensures r.Keys == index.Keys
  {
    if x in index then index[x := RemoveFirst(index[x], e)] else index
  }

  /** DIGRAM_CHANGE(x, e, m): the entry of origin e in the list of x now names rule m. */
  function Change(index: Index, x: Symbol, e: nat, m: RuleId): (r: Index)
    ensures r.Keys == index.Keys
  {
    if x in index then index[x := ChangeFirst(index[x], e, m)] else index
  }

  /**
   * DIGRAM_ADD(x, e, m): the list of x is created if missing, and e is
   * recorded with rule m unless an entry's origin already has e's
   * symbol.  (The code compares the symbol type and the rule field; a
   * terminal's rule field shares its storage with the value, zeroed
   * before the value is set, so for terminals it compares the values.)
   */
  function Add(index: Index, syms: map<nat, Symbol>, x: Symbol, e: nat, m: RuleId): (r: Index)
    ensures r.Keys == index.Keys + {x}
    ensures x in index && FirstWith(index[x], syms, SymOf(syms, e)).Some? ==> r == index
    ensures (x !in index || FirstWith(index[x], syms, SymOf(syms, e)).None?) ==>
      r == index[x := (if x in index then index[x] else []) + [Entry(e, m)]]
  {
    var l := if x in index then index[x] else [];
    if FirstWith(l, syms, SymOf(syms, e)).Some? then index
    else index[x := l + [Entry(e, m)]]
  }

  /**
   * Terminals are told apart by value: after x a is recorded, the digram
   * x b of another terminal b is recorded too, while a second x a is not.
   */
  lemma AddTellsTerminalsApart(syms: map<nat, Symbol>, x: Symbol, e1: nat, e2: nat, e3: nat, m: RuleId)
    requires e1 in syms && e2 in syms && e3 in syms
    requires syms[e1].T? && syms[e2].T? && syms[e1] != syms[e2] && syms[e3] == syms[e1]
    ensures var i1 := Add(map[], syms, x, e1, m);
            var i2 := Add(i1, syms, x, e2, m);
            i2[x] == [Entry(e1, m), Entry(e2, m)] && Add(i2, syms, x, e3, m) == i2
  {
    var i1 := Add(map[], syms, x, e1, m);
    assert i1[x] == [Entry(e1, m)];
    assert FirstWith(i1[x], syms, SymOf(syms, e2)).None? by {
      assert SymOf(syms, i1[x][0].origin) != SymOf(syms, e2);
    }
    var i2 := Add(i1, syms, x, e2, m);
    assert FirstWith(i2[x], syms, SymOf(syms, e3)) == Some(0);
  }

  // ---------------------------------------------------------------------
  // The reduction rules on elements and index
  // ---------------------------------------------------------------------

  /**
   * The index updates of reductionRule2, in the code's order: the pair
   * at p, p + 1 of the root P (after the append) and the pair ending it
   * become the elements v1 and v2 of the new rule m, with symbols syms.
   */
  function Rule2Index(index: Index, syms: map<nat, Symbol>, root: RuleId, P: seq<nat>, p: nat, m: RuleId, v1: nat, v2: nat): Index
    requires p + 4 <= |P|
  {
    var n := |P|;
    var newRoot := P[..p] + [v1] + P[p + 2..n - 2] + [v2];
    var o1, o2, nx, l := P[p], P[p + 1], P[p + 2], P[n - 2];
    // the element before v2: v1 when the two pairs were adjacent
    var pv2 := newRoot[|newRoot| - 2];
    var i1 := Remove(index, SymOf(syms, o2), nx);
    var i2 := Change(i1, SymOf(syms, o1), o2, m);
    var i3 := Remove(i2, SymOf(syms, pv2), l);
    var i4 := if p > 0 then Remove(i3, SymOf(syms, P[p - 1]), o1) else i3;
    var i5 := Add(i4, syms, V(m), newRoot[p + 1], root);
    Add(i5, syms, SymOf(syms, pv2), v2, root)
  }

  /** reductionRule2 on the elements and the index. */
  function Rule2Elements(s: Indexed, root: RuleId, P: seq<nat>, p: nat, m: RuleId): (r: Indexed)
    requires p + 4 <= |P|
    ensures r.elems == s.elems[root := P[..p] + [s.nextElement] + P[p + 2..|P| - 2] + [s.nextElement + 1]][m := [P[p], P[p + 1]]]
    ensures r.nextElement == s.nextElement + 2 && r.g == s.g
    ensures r.syms == s.syms[s.nextElement := V(m)][s.nextElement + 1 := V(m)]
  {
    var v1 := s.nextElement;
    var v2 := s.nextElement + 1;
    var syms := s.syms[v1 := V(m)][v2 := V(m)];
    var nr: seq<nat> := P[..p] + [v1] + P[p + 2..|P| - 2] + [v2];
    var nm: seq<nat> := [P[p], P[p + 1]];
    s.(elems := s.elems[root := nr][m := nm],
       syms := syms, nextElement := v2 + 1, index := Rule2Index(s.index, syms, root, P, p, m, v1, v2))
  }

  /**
   * The index updates of reductionRule3, in the code's order: the pair
   * at p, p + 1 of rule b (named rr) and the pair ending the root P
   * become v1 and v2 of the new rule m.  The code reaches the index
   * through the element before the last pair, which needs three
   * elements in P.
   */
  function Rule3Index(index: Index, syms: map<nat, Symbol>, root: RuleId, P: seq<nat>, rr: RuleId, b: seq<nat>, p: nat, m: RuleId, v1: nat, v2: nat): Index
    requires p + 1 < |b| && 3 <= |P|
  {
    var n := |P|;
    var o1, o2, l, pl := b[p], b[p + 1], P[n - 2], P[n - 3];
    var i1 := if p + 2 < |b| then Remove(index, SymOf(syms, o2), b[p + 2]) else index;
    var i2 := Change(i1, SymOf(syms, o1), o2, m);
    var i3 := Remove(i2, SymOf(syms, pl), l);
    var i4 := if p > 0 then Remove(i3, SymOf(syms, b[p - 1]), o1) else i3;
    var i5 := if p + 2 < |b| then Add(i4, syms, V(m), b[p + 2], rr) else i4;
    var i6 := if p > 0 then Add(i5, syms, SymOf(syms, b[p - 1]), v1, rr) else i5;
    Add(i6, syms, SymOf(syms, pl), v2, root)
  }

  /** reductionRule3 on the elements and the index. */
  function Rule3Elements(s: Indexed, root: RuleId, P: seq<nat>, rr: RuleId, p: nat, m: RuleId): (r: Indexed)
    requires rr in s.elems && p + 1 < |s.elems[rr]| && 3 <= |P|
    ensures r.elems == s.elems[rr := s.elems[rr][..p] + [s.nextElement] + s.elems[rr][p + 2..]][root := P[..|P| - 2] + [s.nextElement + 1]][m := s.elems[rr][p..p + 2]]
    ensures r.nextElement == s.nextElement + 2 && r.g == s.g
    ensures r.syms == s.syms[s.nextElement := V(m)][s.nextElement + 1 := V(m)]
  {
    var b := s.elems[rr];
    var v1 := s.nextElement;
    var v2 := s.nextElement + 1;
    var syms := s.syms[v1 := V(m)][v2 := V(m)];
    var nb: seq<nat> := b[..p] + [v1] + b[p + 2..];
    var nr: seq<nat> := P[..|P| - 2] + [v2];
    var nm: seq<nat> := b[p..p + 2];
    s.(elems := s.elems[rr := nb][root := nr][m := nm],
       syms := syms, nextElement := v2 + 1, index := Rule3Index(s.index, syms, root, P, rr, b, p, m, v1, v2))
  }

  /** DIGRAM_CHANGE for every digram of ob, from its first pair on: they now lie in rule rid. */
  function ChangeAll(index: Index, syms: map<nat, Symbol>, ob: seq<nat>, rid: RuleId): (r: Index)
    ensures r.Keys == index.Keys
    decreases |ob|
  {
    if |ob| < 2 then index
    else ChangeAll(Change(index, SymOf(syms, ob[0]), ob[1], rid), syms, ob[1..], rid)
  }

  /**
   * reductionRule1 on the elements: rule rid starts with an element of
   * rule o, whose elements take its place; o's digrams move to rid.
   */
  function Rule1Elements(s: Indexed, rid: RuleId, o: RuleId): (r: Indexed)
    requires rid in s.elems && |s.elems[rid]| >= 1 && o in s.elems && |s.elems[o]| >= 1
    ensures r.elems == s.elems[rid := s.elems[o] + s.elems[rid][1..]] - {o}
    ensures r.nextElement == s.nextElement && r.syms == s.syms && r.g == s.g
  {
    var b := s.elems[rid];
    var ob := s.elems[o];
    var i1 := ChangeAll(s.index, s.syms, ob, rid);
    var i2 := if |b| >= 2 then Add(i1, s.syms, SymOf(s.syms, ob[|ob| - 1]), b[1], rid) else i1;
    var i3 := if |b| >= 2 then Remove(i2, SymOf(s.syms, b[0]), b[1]) else i2;
    s.(elems := s.elems[rid := ob + b[1..]] - {o}, index := i3)
  }

  /** After Reduction Rule 2 or 3 (grammar and elements): set I, or apply Reduction Rule 1 to the new rule. */
  function AfterReductionAsWritten(t: Indexed, reduced: (Grammar, RuleId), wasAdded: bool): (r: Step)
    requires reduced.1 in reduced.0.rules && |reduced.0.rules[reduced.1]| >= 1
    requires reduced.0.rules[reduced.1][0].V? ==> reduced.0.rules[reduced.1][0].id in reduced.0.rules
    ensures r.Stepped? ==> AfterReduction(reduced, wasAdded) == Done(r.s.g)
    ensures r.Stepped? ==> r.s.syms == t.syms && r.s.nextElement == t.nextElement
  {
    var (h, m) := reduced;
    if !wasAdded then Stepped(t.(g := h.(variablesAdded := true)))
    else match Reduction1Of(h, m)
      case Fatal => Stopped
      case Done(h1) =>
        var o := h.rules[m][0].id;
        if m in t.elems && |t.elems[m]| >= 1 && o in t.elems && |t.elems[o]| >= 1 then
          Stepped(Rule1Elements(t, m, o).(g := h1))
        else Stopped
  }

  // ---------------------------------------------------------------------
  // appendToRootRule
  // ---------------------------------------------------------------------

  /**
   * The earlier occurrence appendToRootRule takes from the index for the
   * digram (x, el), x being the symbol of the root's last element: the
   * first entry of x's list whose origin has symbol el, at the position
   * before its origin in the rule the entry names.
   */
  function IndexFind(s: Indexed, x: Symbol, el: Symbol): (r: Option<(Entry, Option<Occurrence>)>)
    ensures r.None? <==> x !in s.index || FirstWith(s.index[x], s.syms, el).None?
    ensures r.Some? && r.value.1.Some? ==>
      var (n, o) := (r.value.0, r.value.1.value);
      o.rule == n.rule && n.rule in s.elems && o.pos + 1 < |s.elems[n.rule]| && s.elems[n.rule][o.pos + 1] == n.origin
  {
    if x !in s.index then None
    else match FirstWith(s.index[x], s.syms, el)
      case None => None
      case Some(k) =>
        var n := s.index[x][k];
        if n.rule in s.elems && PositionOf(s.elems[n.rule], n.origin).Some? && PositionOf(s.elems[n.rule], n.origin).value > 0 then
          Some((n, Some(Occurrence(n.rule, PositionOf(s.elems[n.rule], n.origin).value - 1))))
        else Some((n, None))
  }

  /** The first half of appendToRootRule on the elements: el becomes a new element at the root's end. */
  function Appended(s: Indexed, rank: Rank, el: Symbol): (s1: Indexed)
    requires s.g.root.Some? && s.g.root.value in s.g.rules && Ranked(s.g.rules, rank) && (el.V? ==> el.id in s.g.rules)
  {
    var root := s.g.root.value;
    var ids := if root in s.elems then s.elems[root] else [];
    s.(g := Pushed(s.g, rank, el), elems := s.elems[root := ids + [s.nextElement]],
       syms := s.syms[s.nextElement := el], nextElement := s.nextElement + 1)
  }

  /**
   * Reduction Rule 2 or 3 (and Rule 1 when I was set) at the occurrence o
   * the index gave, on the grammar and elements s1 after the append; or
   * nothing but clearing I when o is the whole right side of a rule.
   */
  function ReduceAtAsWritten(s1: Indexed, o: Occurrence, wasAdded: bool): (r: Step)
    requires s1.g.root.Some? && s1.g.root.value in s1.g.rules && s1.g.root.value in s1.elems
    requires IdsOk(s1.g) && o.rule in s1.elems && o.pos + 1 < |s1.elems[o.rule]|
    requires o.rule in s1.g.rules && o.pos < |s1.g.rules[o.rule]| ==>
      var b := s1.g.rules[o.rule]; b[o.pos].V? ==> b[o.pos].id in s1.g.rules
  {
    var g1 := s1.g;
    var root := g1.root.value;
    var P := s1.elems[root];
    if o.rule == root then
      if o.pos + 4 <= |P| && |P| == |g1.rules[root]| then
        var reduced := Reduction2Of(g1, o.pos);
        AfterReductionAsWritten(Rule2Elements(s1, root, P, o.pos, reduced.1), reduced, wasAdded)
      else Stopped
    else if o.pos > 0 || o.pos + 2 < |s1.elems[o.rule]| then
      if !(o.rule in g1.rules && o.pos + 1 < |g1.rules[o.rule]| && 2 <= |g1.rules[root]|) then Stopped
      else if |P| < 3 then
        // a root of one element before the append: the code follows its missing predecessor
        Stopped
      else
        var reduced := Reduction3Of(g1, o.rule, o.pos);
        AfterReductionAsWritten(Rule3Elements(s1, root, P, o.rule, o.pos, reduced.1), reduced, wasAdded)
    else
      // the pair is the whole right side of another rule
      Stepped(s1.(g := g1.(variablesAdded := false)))
  }

  /**
   * The reductions appendToRootRule performs after appending el to the
   * root, with the earlier occurrence taken from the index.
   */
  function ReduceAsWritten(s: Indexed, rank: Rank, el: Symbol): (r: Step)
    requires s.g.root.Some? && s.g.root.value in s.g.rules && Ranked(s.g.rules, rank) && (el.V? ==> el.id in s.g.rules)
    requires IdsOk(s.g)
  {
    var root := s.g.root.value;
    var ids := if root in s.elems then s.elems[root] else [];
    var s1 := Appended(s, rank, el);
    if ids == [] then Stepped(s1)
    else
      var last := ids[|ids| - 1];
      var x := SymOf(s.syms, last);
      match IndexFind(s, x, el)
      case None =>
        // no collision: the new digram is recorded for the root
        var l := if x in s.index then s.index[x] else [];
        Stepped(s1.(g := s1.g.(variablesAdded := false), index := s.index[x := l + [Entry(s.nextElement, root)]]))
      case Some((n, occ)) =>
        if n.origin == last then
          // a triple: nothing is recorded
          Stepped(s1.(g := s1.g.(variablesAdded := false)))
        else if occ.None? then Stopped
        else
          assert occ.value.rule != root ==> s1.elems[occ.value.rule] == s.elems[occ.value.rule];
          ReduceAtAsWritten(s1, occ.value, s.g.variablesAdded)
  }

  /** appendToRootRule(el) with the index: the reductions, then the context calls and the purge of KYGrammars. */
  function AppendAsWritten(s: Indexed, rank: Rank, el: Symbol): (r: Step)
    requires s.g.root.Some? && s.g.root.value in s.g.rules && Ranked(s.g.rules, rank) && (el.V? ==> el.id in s.g.rules)
    requires IdsOk(s.g)
    ensures r.Stepped? <==> ReduceAsWritten(s, rank, el).Stepped?
    ensures r.Stepped? ==> r.s.elems == ReduceAsWritten(s, rank, el).s.elems && r.s.index == ReduceAsWritten(s, rank, el).s.index
  {
    match ReduceAsWritten(s, rank, el)
    case Stopped => Stopped
    case Stepped(t) => Stepped(t.(g := Finished(Recorded(t.g, el))))
  }

  // ---------------------------------------------------------------------
  // The index against the search of the right sides
  // ---------------------------------------------------------------------

  /** The occurrence the index yields for the digram (x, el), if its entry can be followed. */
  function IndexOccurrence(s: Indexed, x: Symbol, el: Symbol): Option<Occurrence>
  {
    match IndexFind(s, x, el)
    case None => None
    case Some((_, occ)) => occ
  }

  /** Every rule has as many elements as symbols, and the root's last element occurs nowhere else. */
  predicate Shaped(s: Indexed)
    requires s.g.root.Some?
  {
    var root := s.g.root.value;
    (forall i :: i in s.g.rules ==> i in s.elems && |s.elems[i]| == |s.g.rules[i]|)
    && root in s.elems
    && var ids := s.elems[root];
       ids != [] ==>
         ids[|ids| - 1] !in ids[..|ids| - 1]
         && forall i :: i in s.elems && i != root ==> ids[|ids| - 1] !in s.elems[i]
  }

  /** What Reduce and ReduceAsWritten require, with the elements in step with the symbols. */
  predicate Ready(s: Indexed, rank: Rank, el: Symbol)
  {
    s.g.root.Some? && s.g.root.value in s.g.rules && Ranked(s.g.rules, rank) && (el.V? ==> el.id in s.g.rules)
    && IdsOk(s.g) && Shaped(s)
  }

  /** The symbol of the root's last element. */
  function LastSym(s: Indexed): Symbol
    requires s.g.root.Some? && s.g.root.value in s.elems && s.elems[s.g.root.value] != []
  {
    var ids := s.elems[s.g.root.value];
    SymOf(s.syms, ids[|ids| - 1])
  }

  /** The root's last symbol, in the grammar. */
  function LastOfRoot(g: Grammar): Symbol
    requires g.root.Some? && g.root.value in g.rules && g.rules[g.root.value] != []
  {
    var r := g.rules[g.root.value];
    r[|r| - 1]
  }

  // The reductions of KYGrammars.Reduce, case by case.

  /** What Reduce requires. */
  predicate ReduceReady(g: Grammar, rank: Rank, el: Symbol)
  {
    g.root.Some? && g.root.value in g.rules && Ranked(g.rules, rank) && (el.V? ==> el.id in g.rules) && IdsOk(g)
  }

  lemma ReducePlain(g: Grammar, rank: Rank, el: Symbol)
    requires ReduceReady(g, rank, el)
    requires var r := g.rules[g.root.value];
      r == [] || match FindDigram(g, r[|r| - 1], el)
                 case None => true
                 case Some(o) => o.rule == g.root.value && o.pos + 2 == |r|
    ensures Reduce(g, rank, el) == Done(if g.rules[g.root.value] == [] then Pushed(g, rank, el) else Pushed(g, rank, el).(variablesAdded := false))
  {
  }

  lemma ReduceRule2(g: Grammar, rank: Rank, el: Symbol, o: Occurrence)
    requires ReduceReady(g, rank, el)
    requires var r := g.rules[g.root.value];
      r != [] && FindDigram(g, LastOfRoot(g), el) == Some(o) && o.rule == g.root.value && o.pos + 2 != |r|
    ensures o.pos + 4 <= |Pushed(g, rank, el).rules[g.root.value]|
    ensures Reduce(g, rank, el) == AfterReduction(Reduction2Of(Pushed(g, rank, el), o.pos), g.variablesAdded)
  {
  }

  lemma ReduceRule3(g: Grammar, rank: Rank, el: Symbol, o: Occurrence)
    requires ReduceReady(g, rank, el)
    requires var r := g.rules[g.root.value];
      r != [] && FindDigram(g, LastOfRoot(g), el) == Some(o) && o.rule != g.root.value
    ensures o.rule in g.rules && o.pos + 1 < |g.rules[o.rule]|
    ensures Reduce(g, rank, el) ==
      if o.pos > 0 || o.pos + 2 < |g.rules[o.rule]| then AfterReduction(Reduction3Of(Pushed(g, rank, el), o.rule, o.pos), g.variablesAdded)
      else Done(Pushed(g, rank, el).(variablesAdded := false))
  {
  }

  // The same steps of ReduceAsWritten.

  lemma AsWrittenPlain(s: Indexed, rank: Rank, el: Symbol)
    requires ReduceReady(s.g, rank, el) && s.g.root.value in s.elems
    requires var ids := s.elems[s.g.root.value];
      ids == [] || match IndexFind(s, SymOf(s.syms, ids[|ids| - 1]), el)
                   case None => true
                   case Some((n, _)) => n.origin == ids[|ids| - 1]
    ensures ReduceAsWritten(s, rank, el).Stepped?
    ensures ReduceAsWritten(s, rank, el).s.g ==
      if s.elems[s.g.root.value] == [] then Pushed(s.g, rank, el) else Pushed(s.g, rank, el).(variablesAdded := false)
  {
    var ids := s.elems[s.g.root.value];
    if ids != [] {
      var x := SymOf(s.syms, ids[|ids| - 1]);
      match IndexFind(s, x, el)
      case None =>
      case Some((n, _)) => assert n.origin == ids[|ids| - 1];
    }
  }

  lemma AsWrittenReduced(s: Indexed, rank: Rank, el: Symbol, n: Entry, o: Occurrence)
    requires ReduceReady(s.g, rank, el) && s.g.root.value in s.elems
    requires var ids := s.elems[s.g.root.value];
      ids != [] && IndexFind(s, SymOf(s.syms, ids[|ids| - 1]), el) == Some((n, Some(o))) && n.origin != ids[|ids| - 1]
    ensures ReduceAsWritten(s, rank, el) == ReduceAtAsWritten(Appended(s, rank, el), o, s.g.variablesAdded)
  {
    var ids := s.elems[s.g.root.value];
    var x := SymOf(s.syms, ids[|ids| - 1]);
    match IndexFind(s, x, el)
    case Some((n', occ)) =>
      assert n' == n && occ == Some(o);
  }

  /** The as-written step at an occurrence in the root: Reduction Rule 2. */
  lemma AsWrittenAtRoot(s1: Indexed, o: Occurrence, wasAdded: bool)
    requires s1.g.root.Some? && s1.g.root.value in s1.g.rules && s1.g.root.value in s1.elems
    requires IdsOk(s1.g) && o.rule in s1.elems && o.pos + 1 < |s1.elems[o.rule]|
    requires o.rule == s1.g.root.value && o.pos + 4 <= |s1.g.rules[o.rule]|
    requires var b := s1.g.rules[o.rule]; b[o.pos].V? ==> b[o.pos].id in s1.g.rules
    requires ReduceAtAsWritten(s1, o, wasAdded).Stepped?
    ensures Done(ReduceAtAsWritten(s1, o, wasAdded).s.g) == AfterReduction(Reduction2Of(s1.g, o.pos), wasAdded)
  {
  }

  /** The as-written step at an occurrence in another rule: Reduction Rule 3, or nothing for a whole right side. */
  lemma AsWrittenAtOther(s1: Indexed, o: Occurrence, wasAdded: bool)
    requires s1.g.root.Some? && s1.g.root.value in s1.g.rules && s1.g.root.value in s1.elems
    requires IdsOk(s1.g) && o.rule in s1.elems && o.pos + 1 < |s1.elems[o.rule]|
    requires o.rule != s1.g.root.value && o.rule in s1.g.rules && |s1.elems[o.rule]| == |s1.g.rules[o.rule]|
    requires var b := s1.g.rules[o.rule]; b[o.pos].V? ==> b[o.pos].id in s1.g.rules
    requires ReduceAtAsWritten(s1, o, wasAdded).Stepped?
    ensures var r := ReduceAtAsWritten(s1, o, wasAdded).s.g;
      if o.pos > 0 || o.pos + 2 < |s1.g.rules[o.rule]| then Done(r) == AfterReduction(Reduction3Of(s1.g, o.rule, o.pos), wasAdded)
      else r == s1.g.(variablesAdded := false)
  {
  }

  /** The agreement when neither reduces: the root was empty, nothing was found, or the pair was a triple. */
  lemma AgreePlain(s: Indexed, rank: Rank, el: Symbol)
    requires Ready(s, rank, el)
    requires s.elems[s.g.root.value] != [] ==> IndexOccurrence(s, LastSym(s), el) == FindDigram(s.g, LastOfRoot(s.g), el)
    requires var ids := s.elems[s.g.root.value];
      ids == [] || match IndexFind(s, SymOf(s.syms, ids[|ids| - 1]), el)
                   case None => true
                   case Some((n, _)) => n.origin == ids[|ids| - 1]
    ensures ReduceAsWritten(s, rank, el).Stepped? && Reduce(s.g, rank, el) == Done(ReduceAsWritten(s, rank, el).s.g)
  {
    var root := s.g.root.value;
    var ids := s.elems[root];
    if ids != [] {
      match IndexFind(s, LastSym(s), el)
      case None =>
      case Some((n, occ)) =>
        if occ.Some? {
          var o := occ.value;
          assert s.elems[n.rule][o.pos + 1] == n.origin;
          assert o.rule == root && o.pos + 2 == |s.g.rules[root]|;
        }
    }
    AsWrittenPlain(s, rank, el);
    ReducePlain(s.g, rank, el);
  }

  /** What AsWrittenAt needs of the grammar and elements after the append, where the index names o. */
  lemma AppendedReady(s: Indexed, rank: Rank, el: Symbol, n: Entry, o: Occurrence)
    requires Ready(s, rank, el)
    requires var ids := s.elems[s.g.root.value];
      ids != [] && IndexFind(s, SymOf(s.syms, ids[|ids| - 1]), el) == Some((n, Some(o))) && n.origin != ids[|ids| - 1]
    requires FindDigram(s.g, LastOfRoot(s.g), el) == Some(o)
    ensures var s1 := Appended(s, rank, el);
      s1.g.root.Some? && s1.g.root.value in s1.g.rules && s1.g.root.value in s1.elems
      && IdsOk(s1.g) && o.rule in s1.elems && o.pos + 1 < |s1.elems[o.rule]|
      && o.rule in s1.g.rules && o.pos + 1 < |s1.g.rules[o.rule]| && |s1.elems[o.rule]| == |s1.g.rules[o.rule]|
      && (s1.g.rules[o.rule][o.pos].V? ==> s1.g.rules[o.rule][o.pos].id in s1.g.rules)
  {
    assert s.elems[n.rule][o.pos + 1] == n.origin;
  }

  /** AgreeReduced where o lies in the root: Reduction Rule 2 on both sides. */
  lemma AgreeRule2(s: Indexed, rank: Rank, el: Symbol, n: Entry, o: Occurrence)
    requires Ready(s, rank, el)
    requires var ids := s.elems[s.g.root.value];
      ids != [] && IndexFind(s, SymOf(s.syms, ids[|ids| - 1]), el) == Some((n, Some(o))) && n.origin != ids[|ids| - 1]
    requires FindDigram(s.g, LastOfRoot(s.g), el) == Some(o) && o.rule == s.g.root.value
    requires ReduceAsWritten(s, rank, el).Stepped?
    ensures Reduce(s.g, rank, el) == Done(ReduceAsWritten(s, rank, el).s.g)
  {
    var root := s.g.root.value;
    assert s.elems[n.rule][o.pos + 1] == n.origin;
    assert o.pos + 2 != |s.g.rules[root]|;
    AsWrittenReduced(s, rank, el, n, o);
    ReduceRule2(s.g, rank, el, o);
    AppendedReady(s, rank, el, n, o);
    AsWrittenAtRoot(Appended(s, rank, el), o, s.g.variablesAdded);
  }

  /** AgreeReduced where o lies in another rule: Reduction Rule 3, or nothing, on both sides. */
  lemma AgreeRule3(s: Indexed, rank: Rank, el: Symbol, n: Entry, o: Occurrence)
    requires Ready(s, rank, el)
    requires var ids := s.elems[s.g.root.value];
      ids != [] && IndexFind(s, SymOf(s.syms, ids[|ids| - 1]), el) == Some((n, Some(o))) && n.origin != ids[|ids| - 1]
    requires FindDigram(s.g, LastOfRoot(s.g), el) == Some(o) && o.rule != s.g.root.value
    requires ReduceAsWritten(s, rank, el).Stepped?
    ensures Reduce(s.g, rank, el) == Done(ReduceAsWritten(s, rank, el).s.g)
  {
    AsWrittenReduced(s, rank, el, n, o);
    ReduceRule3(s.g, rank, el, o);
    AppendedReady(s, rank, el, n, o);
    AsWrittenAtOther(Appended(s, rank, el), o, s.g.variablesAdded);
  }

  /** The agreement when the index names the occurrence o through entry n, and Rule 2 or 3 may apply. */
  lemma AgreeReduced(s: Indexed, rank: Rank, el: Symbol, n: Entry, o: Occurrence)
    requires Ready(s, rank, el)
    requires var ids := s.elems[s.g.root.value];
      ids != [] && IndexFind(s, SymOf(s.syms, ids[|ids| - 1]), el) == Some((n, Some(o))) && n.origin != ids[|ids| - 1]
    requires FindDigram(s.g, LastOfRoot(s.g), el) == Some(o)
    requires ReduceAsWritten(s, rank, el).Stepped?
    ensures Reduce(s.g, rank, el) == Done(ReduceAsWritten(s, rank, el).s.g)
  {
    if o.rule == s.g.root.value {
      AgreeRule2(s, rank, el, n, o);
    } else {
      AgreeRule3(s, rank, el, n, o);
    }
  }

  /**
   * Where the index names the occurrence the search of the right sides
   * finds, the code's appendToRootRule performs the reduction of
   * KYGrammars.Reduce: the two differ only in where the earlier
   * occurrence of the digram comes from.
   */
  lemma ReduceAsWrittenAgrees(s: Indexed, rank: Rank, el: Symbol)
    requires Ready(s, rank, el)
    requires s.elems[s.g.root.value] != [] ==> IndexOccurrence(s, LastSym(s), el) == FindDigram(s.g, LastOfRoot(s.g), el)
    requires ReduceAsWritten(s, rank, el).Stepped?
    ensures Reduce(s.g, rank, el) == Done(ReduceAsWritten(s, rank, el).s.g)
  {
    var ids := s.elems[s.g.root.value];
    if ids == [] {
      AgreePlain(s, rank, el);
    } else {
      match IndexFind(s, LastSym(s), el)
      case None => AgreePlain(s, rank, el);
      case Some((n, occ)) =>
        if n.origin == ids[|ids| - 1] {
          AgreePlain(s, rank, el);
        } else {
          AgreeReduced(s, rank, el, n, occ.value);
        }
    }
  }
}
