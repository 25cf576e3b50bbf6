/**
 * KYGrammar on values: the state of the grammar transform, its
 * invariant, and each of its operations as a transition from one state
 * to the next.  The class in kygrammarobject.dfy performs the same
 * transitions on its fields.
 *
 * The arithmetic context the grammar encodes to is represented by the
 * calls the grammar makes on it (encode, installSymbol), recorded in
 * order; the output device of the decoder by the symbols written to it.
 */
module KYGrammars {
  import opened Wrappers
  import opened KYExpansion

  /** KY_GRAMMAR_EATDATA_PERIODICITY: eatData runs after every 800 appended terminals. */
  const EatDataPeriodicity: nat := 800

  /** KY_GRAMMAR_MAX_SIZE: the grammar is purged when it holds this many symbols. */
  const MaxGrammarSize: nat := 8388608

  /** The largest size_t, where an unsigned decrement from 0 lands. */
  const SizeMax: nat := 0xFFFF_FFFF_FFFF_FFFF

  /** A call the grammar makes on its arithmetic context. */
  datatype ContextCall = EncodeSymbol(symbol: int) | InstallSymbol(symbol: int)

  datatype Grammar = Grammar(
    rules: Rules,                 // right side of every rule, by id
    ruleSet: seq<RuleId>,         // the rules in the order of the rule list
    root: Option<RuleId>,         // rootRule
    ruleCounter: nat,             // next never-used rule id
    available: seq<RuleId>,       // availableRuleNumbers, a FIFO queue
    runCount: nat,
    size: nat,                    // number of symbols on all right sides
    variablesAdded: bool,         // the flag I of the transform
    input: seq<int>,              // the input queue; inputQueueLength is its length
    maxInputQueueLength: nat,
    eatDataPeriodicity: nat,
    lastFixedSymbol: int,         // the context's lastFixedSymbol()
    useContextForOutput: bool,
    newSymbolToInstall: int,
    calls: seq<ContextCall>,      // calls made on the context so far
    output: Option<seq<int>>)     // the decoder's output device, if one is set

  /** An operation either completes or stops the program with FATAL. */
  datatype Outcome = Done(g: Grammar) | Fatal

  /** The position of a digram: rule and index of its first symbol. */
  datatype Occurrence = Occurrence(rule: RuleId, pos: nat)

  // ---------------------------------------------------------------------
  // The invariant
  // ---------------------------------------------------------------------

  /** The root rule is rule 0, and the rule list lists every rule once. */
  predicate RuleSetOk(g: Grammar)
  {
    g.root == Some(0) && 0 in g.rules && Distinct(g.ruleSet)
    && (forall i :: i in g.ruleSet ==> i in g.rules)
    && (forall i :: i in g.rules ==> i in g.ruleSet)
  }

  /** Rule ids in use and queued for reuse are below the counter and disjoint. */
  predicate IdsOk(g: Grammar)
  {
    (forall i :: i in g.rules ==> i < g.ruleCounter)
    && Distinct(g.available)
    && (forall i :: i in g.available ==> i < g.ruleCounter && i !in g.rules)
  }

  /** No right side names the root rule. */
  predicate NoRootRef(g: Grammar)
    requires g.root.Some?
  {
    forall i :: i in g.rules ==> V(g.root.value) !in g.rules[i]
  }

  /** Every rule but the root has at least two symbols. */
  predicate BodiesOk(g: Grammar)
    requires g.root.Some?
  {
    forall i :: i in g.rules && i != g.root.value ==> |g.rules[i]| >= 2
  }

  /** size counts the symbols of all right sides. */
  predicate SizeOk(g: Grammar)
  {
    g.size == Total(g.rules, g.ruleSet)
  }

  predicate QueueOk(g: Grammar)
  {
    |g.input| <= g.maxInputQueueLength && 1 <= g.eatDataPeriodicity <= EatDataPeriodicity
  }

  /** Apart from position e of rule root, V(n) occurs at most at one place. */
  predicate AtMostOneOther(rules: Rules, n: RuleId, root: RuleId, e: nat)
  {
    forall i, k, i2, k2 ::
      i in rules && 0 <= k < |rules[i]| && rules[i][k] == V(n) && (i != root || k != e) &&
      i2 in rules && 0 <= k2 < |rules[i2]| && rules[i2][k2] == V(n) && (i2 != root || k2 != e)
      ==> i == i2 && k == k2
  }

  /**
   * When I is set, the root rule ends with the variable created by the
   * last reduction, and that variable is used at most once elsewhere:
   * so when the next reduction is followed by Reduction Rule 1, the rule
   * it removes is used exactly once.
   */
  predicate RepeatOk(g: Grammar)
    requires g.root.Some? && g.root.value in g.rules
  {
    var r := g.rules[g.root.value];
    g.variablesAdded ==>
      |r| >= 1 && r[|r| - 1].V? && r[|r| - 1].id in g.rules && r[|r| - 1].id != g.root.value
      && AtMostOneOther(g.rules, r[|r| - 1].id, g.root.value, |r| - 1)
  }

  /** What every step of appendToRootRule keeps, before the purge and the context calls. */
  predicate Intact(g: Grammar)
  {
    RuleSetOk(g) && IdsOk(g) && NoRootRef(g) && BodiesOk(g) && SizeOk(g) && QueueOk(g) && RepeatOk(g)
  }

  /**
   * The invariant between operations: in addition, the grammar is below
   * the purge limit and no new symbol waits to be installed.
   */
  predicate WellFormed(g: Grammar)
  {
    Intact(g) && g.size < MaxGrammarSize && g.newSymbolToInstall == 0
  }

  /** A well-formed grammar with rank as the witness of its acyclicity. */
  predicate Valid(g: Grammar, rank: Rank)
  {
    WellFormed(g) && Ranked(g.rules, rank)
  }

  /** The string the root rule stands for: the data consumed so far. */
  function Text(g: Grammar, rank: Rank): seq<int>
    requires g.root.Some? && g.root.value in g.rules && Ranked(g.rules, rank)
  {
    Expansion(g.rules, rank, g.root.value)
  }

  /** A symbol that may be appended: a terminal, or a variable naming a rule other than the root. */
  predicate SymbolOk(g: Grammar, el: Symbol)
  {
    el.V? ==> el.id in g.rules && Some(el.id) != g.root
  }

  /** The string an element stands for. */
  function ExpandSymbol(g: Grammar, rank: Rank, el: Symbol): seq<int>
    requires Ranked(g.rules, rank) && (el.V? ==> el.id in g.rules)
  {
    match el
    case T(v) => [v]
    case V(j) => Expansion(g.rules, rank, j)
  }

  // ---------------------------------------------------------------------
  // Construction, rule creation and lookup
  // ---------------------------------------------------------------------

  /**
   * The grammar after the constructor (initKYGrammar, which creates the
   * root rule) and setContext; output is the device set by
   * setOutputDevice, if any.
   */
  function NewGrammar(lastFixedSymbol: int, useContextForOutput: bool, output: Option<seq<int>>): (g: Grammar)
    ensures WellFormed(g) && Ranked(g.rules, map[0 := 0]) && Text(g, map[0 := 0]) == []
  {
    Grammar(map[0 := []], [0], Some(0), 1, [], 1, 0, false, [], 0, EatDataPeriodicity,
            lastFixedSymbol, useContextForOutput, 0, [], output)
  }

  /** createRootRule: a rule with an empty right side and the next counter value; nothing if a root exists. */
  function CreateRootRuleOf(g: Grammar): (r: (Grammar, Option<RuleId>))
  {
    if g.root.Some? then (g, None)
    else
      (g.(rules := g.rules[g.ruleCounter := []], ruleSet := g.ruleSet + [g.ruleCounter],
          root := Some(g.ruleCounter), ruleCounter := g.ruleCounter + 1),
       Some(g.ruleCounter))
  }

  /** The id createRule gives the next rule: the oldest freed id, or a new one. */
  function NextId(g: Grammar): RuleId
  {
    if g.available == [] then g.ruleCounter else g.available[0]
  }

  /**
   * createRule: a rule with the given right side, appended to the rule
   * list.  A new id is announced to the context through newSymbolToInstall.
   */
  function CreateRuleOf(g: Grammar, body: seq<Symbol>): (r: (Grammar, RuleId))
  {
    if g.available == [] then
      (g.(rules := g.rules[g.ruleCounter := body], ruleSet := g.ruleSet + [g.ruleCounter],
          ruleCounter := g.ruleCounter + 1, newSymbolToInstall := g.lastFixedSymbol + g.ruleCounter),
       g.ruleCounter)
    else
      (g.(rules := g.rules[g.available[0] := body], ruleSet := g.ruleSet + [g.available[0]],
          available := g.available[1..]),
       g.available[0])
  }

  /** findRule: the first rule in the rule list with the given id. */
  function FindRuleOf(g: Grammar, id: RuleId): (r: Option<seq<Symbol>>)
    requires forall i :: i in g.ruleSet ==> i in g.rules
  {
    if id in g.ruleSet then Some(g.rules[id]) else None
  }

  // ---------------------------------------------------------------------
  // Digram search
  // ---------------------------------------------------------------------

  /** The first position at or after p where x is followed by y. */
  function FindPairFrom(body: seq<Symbol>, x: Symbol, y: Symbol, p: nat): (r: Option<nat>)
    ensures r.Some? ==> p <= r.value && r.value + 1 < |body| && body[r.value] == x && body[r.value + 1] == y
    ensures r.None? ==> forall q :: p <= q && q + 1 < |body| ==> !(body[q] == x && body[q + 1] == y)
    decreases |body| - p
  {
    if p + 1 >= |body| then None
    else if body[p] == x && body[p + 1] == y then Some(p)
    else FindPairFrom(body, x, y, p + 1)
  }

  /** The first occurrence of the digram (x, y) in the rules listed in ids. */
  function FindDigramIn(rules: Rules, ids: seq<RuleId>, x: Symbol, y: Symbol): (r: Option<Occurrence>)
    ensures r.Some? ==>
      r.value.rule in ids && r.value.rule in rules && r.value.pos + 1 < |rules[r.value.rule]|
      && rules[r.value.rule][r.value.pos] == x && rules[r.value.rule][r.value.pos + 1] == y
    ensures r.None? ==>
      forall i, q :: i in ids && i in rules && 0 <= q && q + 1 < |rules[i]| ==> !(rules[i][q] == x && rules[i][q + 1] == y)
  {
    if ids == [] then None
    else if ids[0] in rules && FindPairFrom(rules[ids[0]], x, y, 0).Some? then
      Some(Occurrence(ids[0], FindPairFrom(rules[ids[0]], x, y, 0).value))
    else FindDigramIn(rules, ids[1..], x, y)
  }

  /**
   * The earlier occurrence of the digram (x, y), which the code looks up
   * in its digram index; searched here over the rules in list order.
   */
  function FindDigram(g: Grammar, x: Symbol, y: Symbol): Option<Occurrence>
  {
    FindDigramIn(g.rules, g.ruleSet, x, y)
  }

  // ---------------------------------------------------------------------
  // Reduction rules
  // ---------------------------------------------------------------------

  /**
   * reductionRule1: rule rid starts with a variable whose rule is used
   * only there; that rule's right side replaces the variable, the rule
   * is unlisted and its id queued for reuse.  FATAL when rid starts
   * with a terminal.
   */
  function Reduction1Of(g: Grammar, rid: RuleId): Outcome
    requires rid in g.rules && |g.rules[rid]| >= 1
    requires g.rules[rid][0].V? ==> g.rules[rid][0].id in g.rules
  {
    var body := g.rules[rid];
    if body[0].T? then Fatal
    else
      var o := body[0].id;
      Done(g.(available := g.available + [o],
              rules := g.rules[rid := g.rules[o] + body[1..]] - {o},
              ruleSet := Without(g.ruleSet, o),
              size := if g.size == 0 then SizeMax else g.size - 1))
  }

  /**
   * reductionRule2: the pair at p of the root rule also ends it; both
   * become a variable of a new rule for the pair.
   */
  function Reduction2Of(g: Grammar, p: nat): (r: (Grammar, RuleId))
    requires g.root.Some? && g.root.value in g.rules && p + 4 <= |g.rules[g.root.value]|
    requires NextId(g) !in g.rules
    ensures r.1 == NextId(g) && r.0.rules.Keys == g.rules.Keys + {r.1}
    ensures r.0.rules[r.1] == [g.rules[g.root.value][p], g.rules[g.root.value][p + 1]]
  {
    var root := g.root.value;
    var r := g.rules[root];
    var n := |r|;
    var (g1, m) := CreateRuleOf(g, [r[p], r[p + 1]]);
    (g1.(rules := g1.rules[root := r[..p] + [V(m)] + r[p + 2..n - 2] + [V(m)]]), m)
  }

  /**
   * reductionRule3: the pair at p of rule rr (not the root) also ends the
   * root rule; both become a variable of a new rule for the pair.
   */
  function Reduction3Of(g: Grammar, rr: RuleId, p: nat): (r: (Grammar, RuleId))
    requires g.root.Some? && g.root.value in g.rules && |g.rules[g.root.value]| >= 2
    requires rr in g.rules && p + 1 < |g.rules[rr]|
    requires NextId(g) !in g.rules
    ensures r.1 == NextId(g) && r.0.rules.Keys == g.rules.Keys + {r.1}
    ensures r.0.rules[r.1] == [g.rules[rr][p], g.rules[rr][p + 1]]
  {
    var root := g.root.value;
    var r := g.rules[root];
    var b := g.rules[rr];
    var (g1, m) := CreateRuleOf(g, [b[p], b[p + 1]]);
    (g1.(rules := g1.rules[rr := b[..p] + [V(m)] + b[p + 2..]][root := r[..|r| - 2] + [V(m)]]), m)
  }

  // ---------------------------------------------------------------------
  // appendToRootRule
  // ---------------------------------------------------------------------

  /** The decoder's output device after el's string is written to it. */
  function Shown(g: Grammar, rank: Rank, el: Symbol): Option<seq<int>>
    requires Ranked(g.rules, rank) && (el.V? ==> el.id in g.rules)
  {
    if g.output.Some? then Some(g.output.value + ExpandSymbol(g, rank, el)) else None
  }

  /** The first half of appendToRootRule: write to the device, count, and append el to the root. */
  function Pushed(g: Grammar, rank: Rank, el: Symbol): Grammar
    requires g.root.Some? && g.root.value in g.rules && Ranked(g.rules, rank) && (el.V? ==> el.id in g.rules)
  {
    var root := g.root.value;
    g.(output := Shown(g, rank, el),
       runCount := g.runCount + 1,
       size := g.size + 1,
       rules := g.rules[root := g.rules[root] + [el]])
  }

  /** After Reduction Rule 2 or 3: set I, or apply Reduction Rule 1 to the new rule when I is already set. */
  function AfterReduction(reduced: (Grammar, RuleId), wasAdded: bool): Outcome
    requires reduced.1 in reduced.0.rules && |reduced.0.rules[reduced.1]| >= 1
    requires reduced.0.rules[reduced.1][0].V? ==> reduced.0.rules[reduced.1][0].id in reduced.0.rules
  {
    if !wasAdded then Done(reduced.0.(variablesAdded := true))
    else Reduction1Of(reduced.0, reduced.1)
  }

  /** The reductions appendToRootRule performs after appending el to the root of g. */
  function Reduce(g: Grammar, rank: Rank, el: Symbol): Outcome
    requires g.root.Some? && g.root.value in g.rules && Ranked(g.rules, rank) && (el.V? ==> el.id in g.rules)
    requires IdsOk(g)
  {
    var root := g.root.value;
    var r := g.rules[root];
    var g1 := Pushed(g, rank, el);
    if r == [] then Done(g1)
    else
      match FindDigram(g, r[|r| - 1], el)
      case None => Done(g1.(variablesAdded := false))
      case Some(o) =>
        if o.rule == root && o.pos + 2 == |r| then
          // the pair overlaps the one just formed (a triple)
          Done(g1.(variablesAdded := false))
        else if o.rule == root then
          AfterReduction(Reduction2Of(g1, o.pos), g.variablesAdded)
        else if o.pos > 0 || o.pos + 2 < |g.rules[o.rule]| then
          AfterReduction(Reduction3Of(g1, o.rule, o.pos), g.variablesAdded)
        else
          // the pair is the whole right side of another rule
          Done(g1.(variablesAdded := false))
  }

  /** The symbol the context receives for an appended element. */
  function SymbolCode(g: Grammar, el: Symbol): int
  {
    match el
    case T(v) => v % 256
    case V(id) => g.lastFixedSymbol + id
  }

  /** The context calls of appendToRootRule: encode the element, then install a new symbol. */
  function Recorded(g: Grammar, el: Symbol): Grammar
  {
    var g1 := if g.useContextForOutput then g.(calls := g.calls + [EncodeSymbol(SymbolCode(g, el))]) else g;
    if g1.newSymbolToInstall != 0 then
      g1.(calls := g1.calls + [InstallSymbol(g1.newSymbolToInstall)], newSymbolToInstall := 0)
    else g1
  }

  /** purge: all rules go; an empty root rule 0 is created as at construction. */
  function Purged(g: Grammar): Grammar
  {
    g.(rules := map[0 := []], ruleSet := [0], root := Some(0), ruleCounter := 1, available := [],
       runCount := 1, variablesAdded := false, size := 0)
  }

  /** appendToRootRule(el). */
  function AppendToRootRuleOf(g: Grammar, rank: Rank, el: Symbol): Outcome
    requires g.root.Some? && g.root.value in g.rules && Ranked(g.rules, rank) && (el.V? ==> el.id in g.rules)
    requires IdsOk(g)
  {
    match Reduce(g, rank, el)
    case Fatal => Fatal
    case Done(g3) => Done(Finished(Recorded(g3, el)))
  }

  /** The end of appendToRootRule: purge a grammar that reached the size limit. */
  function Finished(g: Grammar): Grammar
  {
    if g.size == MaxGrammarSize then Purged(g) else g
  }

  /** A symbol's rank on the scale of the next rank: twice its rule's plus two, 0 for a terminal. */
  function ScaledRank(rank: Rank, x: Symbol): nat
  {
    if x.V? && x.id in rank then 2 * rank[x.id] + 2 else 0
  }

  function Max(a: nat, b: nat): nat
  {
    if a < b then b else a
  }

  /**
   * A rank for the grammar after appending el: every old rank doubled
   * and raised by two, the rule a reduction may create placed just above
   * its pair, the root above everything.
   */
  function AppendRank(g: Grammar, rank: Rank, el: Symbol): Rank
    requires g.root.Some? && g.root.value in g.rules
  {
    var root := g.root.value;
    var r := g.rules[root];
    var scaled := map i | i in rank :: 2 * rank[i] + 2;
    var h := Max(if r == [] then 0 else ScaledRank(rank, r[|r| - 1]), ScaledRank(rank, el)) + 1;
    scaled[NextId(g) := h][root := Max(ScaledRank(rank, V(root)), h + 1)]
  }

  // ---------------------------------------------------------------------
  // Rule creation and lookup
  // ---------------------------------------------------------------------

  /**
   * createRule reuses the oldest freed id, or takes the counter and
   * announces the new symbol; either way the id is new, the rule is
   * listed last, and the id bookkeeping stays consistent.
   */
  lemma CreateRuleFresh(g: Grammar, body: seq<Symbol>)
    requires IdsOk(g) && Distinct(g.ruleSet) && forall i :: i in g.ruleSet ==> i in g.rules
    ensures var (g', id) := CreateRuleOf(g, body);
      id !in g.rules && id !in g.ruleSet
      && g'.rules == g.rules[id := body] && g'.ruleSet == g.ruleSet + [id] && Distinct(g'.ruleSet)
      && IdsOk(g')
      && (g.available != [] ==> id == g.available[0] && g'.available == g.available[1..]
                                && g'.ruleCounter == g.ruleCounter && g'.newSymbolToInstall == g.newSymbolToInstall)
      && (g.available == [] ==> id == g.ruleCounter && g'.ruleCounter == g.ruleCounter + 1 && g'.available == []
                                && g'.newSymbolToInstall == g.lastFixedSymbol + g.ruleCounter)
  {
    if g.available != [] {
      CreateRuleReuses(g, body);
    }
  }

  /** CreateRuleFresh when a freed id is reused. */
  lemma CreateRuleReuses(g: Grammar, body: seq<Symbol>)
    requires IdsOk(g) && g.available != []
    ensures var (g', id) := CreateRuleOf(g, body);
      id == g.available[0] && id !in g.rules && IdsOk(g')
  {
    var (g', id) := CreateRuleOf(g, body);
    assert id in g.available;
    assert g'.available == g.available[1..];
    forall i | i in g'.available ensures i != id && i < g'.ruleCounter && i !in g'.rules {
      var k :| 0 <= k < |g'.available| && g'.available[k] == i;
      assert g.available[k + 1] == i && g.available[k + 1] in g.available;
      assert g.available[0] != g.available[k + 1];
    }
  }

  /** createRootRule fails exactly when a root exists, and otherwise makes an empty root. */
  lemma CreateRootRuleOfSpec(g: Grammar)
    ensures var (g', r) := CreateRootRuleOf(g);
      (g.root.Some? <==> r.None?)
      && (r.None? ==> g' == g)
      && (r.Some? ==> g'.root == r && r.value == g.ruleCounter && g'.rules == g.rules[r.value := []]
                      && g'.ruleSet == g.ruleSet + [r.value] && g'.ruleCounter == g.ruleCounter + 1)
  {
  }

  /** findRule finds a rule exactly when its id is listed, and returns that rule. */
  lemma FindRuleOfSpec(g: Grammar, id: RuleId)
    requires RuleSetOk(g)
    ensures FindRuleOf(g, id).Some? <==> id in g.rules
    ensures FindRuleOf(g, id).Some? ==> FindRuleOf(g, id).value == g.rules[id]
  {
  }

  // ---------------------------------------------------------------------
  // What Reduction Rules 2 and 3 leave behind
  // ---------------------------------------------------------------------

  /** The pair (x, y) sits at o, and o is not the pair just formed at the end of the root. */
  predicate ReducibleAt(g: Grammar, el: Symbol, o: Occurrence)
    requires g.root.Some? && g.root.value in g.rules
  {
    var root := g.root.value;
    var r := g.rules[root];
    |r| >= 1 && o.rule in g.rules && o.pos + 1 < |g.rules[o.rule]|
    && g.rules[o.rule][o.pos] == r[|r| - 1] && g.rules[o.rule][o.pos + 1] == el
    && !(o.rule == root && o.pos + 2 == |r|)
    && (o.rule != root ==> o.pos > 0 || o.pos + 2 < |g.rules[o.rule]|)
  }

  /**
   * The right sides after a reduction at o for appended el: the earlier
   * occurrence and the root's last symbol with el become V(m), and rule
   * m stands for the pair.
   */
  function Replaced(g: Grammar, el: Symbol, o: Occurrence, m: RuleId): Rules
    requires g.root.Some? && g.root.value in g.rules && ReducibleAt(g, el, o)
  {
    var root := g.root.value;
    var r := g.rules[root];
    var base := g.rules[root := r[..|r| - 1]];
    var b := base[o.rule];
    var q := base[o.rule := b[..o.pos] + [V(m)] + b[o.pos + 2..]];
    q[m := [r[|r| - 1], el]][root := q[root] + [V(m)]]
  }

  /** The grammar after Reduction Rule 2 or 3, before I is updated. */
  function ReducedState(g: Grammar, rank: Rank, el: Symbol, o: Occurrence): Grammar
    requires g.root.Some? && g.root.value in g.rules && Ranked(g.rules, rank) && (el.V? ==> el.id in g.rules)
    requires ReducibleAt(g, el, o)
  {
    var r := g.rules[g.root.value];
    CreateRuleOf(Pushed(g, rank, el), [r[|r| - 1], el]).0.(rules := Replaced(g, el, o, NextId(g)))
  }

  lemma Reduction2Shape(g: Grammar, rank: Rank, el: Symbol, o: Occurrence)
    requires g.root.Some? && g.root.value in g.rules && Ranked(g.rules, rank) && (el.V? ==> el.id in g.rules)
    requires IdsOk(g) && ReducibleAt(g, el, o) && o.rule == g.root.value
    ensures var g1 := Pushed(g, rank, el);
      o.pos + 4 <= |g1.rules[g1.root.value]| && NextId(g1) !in g1.rules
      && Reduction2Of(g1, o.pos) == (ReducedState(g, rank, el, o), NextId(g))
  {
    var root := g.root.value;
    var r := g.rules[root];
    var g1 := Pushed(g, rank, el);
    var m := NextId(g);
    var p := o.pos;
    NextIdFresh(g);
    assert g1.rules[root] == r + [el];
    CreateRuleNext(g1, [(r + [el])[p], (r + [el])[p + 1]]);
    Reduction2Rules(g.rules, root, el, p, m);
    assert Reduction2Of(g1, p).0.rules == Replaced(g, el, o, m);
  }

  /** A new rule takes the next id. */
  lemma CreateRuleNext(g: Grammar, body: seq<Symbol>)
    ensures var (g', id) := CreateRuleOf(g, body);
      id == NextId(g) && g'.rules == g.rules[id := body]
  {
  }

  /** The right sides Reduction Rule 2 makes, as a reduction at an occurrence in the root. */
  lemma Reduction2Rules(rules: Rules, root: RuleId, el: Symbol, p: nat, m: RuleId)
    requires root in rules && root != m && p + 3 <= |rules[root]|
    requires rules[root][p] == rules[root][|rules[root]| - 1] && rules[root][p + 1] == el
    ensures var r := rules[root]; var r1, b := r + [el], r[..|r| - 1];
      var c := b[..p] + [V(m)] + b[p + 2..];
      rules[root := r1][m := [r1[p], r1[p + 1]]][root := r1[..p] + [V(m)] + r1[p + 2..|r1| - 2] + [V(m)]]
      == rules[root := b][root := c][m := [r[|r| - 1], el]][root := c + [V(m)]]
  {
    var r := rules[root];
    var r1, b := r + [el], r[..|r| - 1];
    assert b[..p] + [V(m)] + b[p + 2..] + [V(m)] == r1[..p] + [V(m)] + r1[p + 2..|r1| - 2] + [V(m)];
    assert [r1[p], r1[p + 1]] == [r[|r| - 1], el];
  }

  lemma Reduction3Shape(g: Grammar, rank: Rank, el: Symbol, o: Occurrence)
    requires g.root.Some? && g.root.value in g.rules && Ranked(g.rules, rank) && (el.V? ==> el.id in g.rules)
    requires IdsOk(g) && ReducibleAt(g, el, o) && o.rule != g.root.value
    ensures var g1 := Pushed(g, rank, el);
      |g1.rules[g1.root.value]| >= 2 && o.rule in g1.rules && o.pos + 1 < |g1.rules[o.rule]|
      && NextId(g1) !in g1.rules
      && Reduction3Of(g1, o.rule, o.pos) == (ReducedState(g, rank, el, o), NextId(g))
  {
    var root := g.root.value;
    var r := g.rules[root];
    var g1 := Pushed(g, rank, el);
    var m := NextId(g);
    var b := g.rules[o.rule];
    NextIdFresh(g);
    assert g1.rules[root] == r + [el] && g1.rules[o.rule] == b;
    CreateRuleNext(g1, [b[o.pos], b[o.pos + 1]]);
    Reduction3Rules(g.rules, root, o.rule, el, o.pos, m);
    assert Reduction3Of(g1, o.rule, o.pos).0.rules == Replaced(g, el, o, m);
  }

  /** The right sides Reduction Rule 3 makes, as a reduction at an occurrence outside the root. */
  lemma Reduction3Rules(rules: Rules, root: RuleId, rr: RuleId, el: Symbol, p: nat, m: RuleId)
    requires root in rules && rr in rules && root != m && rr != m && rr != root
    requires |rules[root]| >= 1 && p + 1 < |rules[rr]|
    requires rules[rr][p] == rules[root][|rules[root]| - 1] && rules[rr][p + 1] == el
    ensures var r, b := rules[root], rules[rr]; var r1 := r + [el];
      var c := b[..p] + [V(m)] + b[p + 2..];
      rules[root := r1][m := [b[p], b[p + 1]]][rr := c][root := r1[..|r1| - 2] + [V(m)]]
      == rules[root := r[..|r| - 1]][rr := c][m := [r[|r| - 1], el]][root := r[..|r| - 1] + [V(m)]]
  {
    var r := rules[root];
    var r1 := r + [el];
    assert r1[..|r1| - 2] == r[..|r| - 1];
  }

  // ---------------------------------------------------------------------
  // Reductions keep the strings
  // ---------------------------------------------------------------------

  /**
   * The strings after appending el: the old expansions, the root
   * extended by el's string, and the next rule id standing for the pair
   * formed at the end of the root.
   */
  function FStar(g: Grammar, rank: Rank, el: Symbol): map<RuleId, seq<int>>
    requires g.root.Some? && g.root.value in g.rules && Ranked(g.rules, rank)
  {
    var root := g.root.value;
    var r := g.rules[root];
    var f0 := ExpansionMap(g.rules, rank);
    f0[root := f0[root] + FlatSym(el, f0)][NextId(g) := if r == [] then [] else Flat([r[|r| - 1], el], f0)]
  }

  lemma NextIdFresh(g: Grammar)
    requires IdsOk(g)
    ensures NextId(g) !in g.rules
  {
    if g.available != [] { assert g.available[0] in g.available; }
  }

  /** Every variable of a right side names a rule other than the root and the next id. */
  lemma BodyVars(g: Grammar, rank: Rank, i: RuleId)
    requires Valid(g, rank) && i in g.rules
    ensures forall x :: x in g.rules[i] && x.V? ==> x.id in g.rules && x.id != g.root.value && x.id != NextId(g)
  {
    NextIdFresh(g);
    BelowIn(g.rules, rank, g.rules[i], rank[i]);
  }

  /** FStar agrees with the old expansions away from the root. */
  lemma FStarAgrees(g: Grammar, rank: Rank, el: Symbol, s: seq<Symbol>)
    requires Valid(g, rank)
    requires forall x :: x in s && x.V? ==> x.id in g.rules && x.id != g.root.value && x.id != NextId(g)
    ensures Flat(s, FStar(g, rank, el)) == Flat(s, ExpansionMap(g.rules, rank))
  {
    FlatAgreeIn(s, FStar(g, rank, el), ExpansionMap(g.rules, rank));
  }

  /** The right side of the new rule flattens to the pair's string. */
  lemma ReplacedSolvesNew(g: Grammar, rank: Rank, el: Symbol, o: Occurrence)
    requires Valid(g, rank) && SymbolOk(g, el) && ReducibleAt(g, el, o)
    ensures var q, f := Replaced(g, el, o, NextId(g)), FStar(g, rank, el);
      NextId(g) in q && NextId(g) in f && f[NextId(g)] == Flat(q[NextId(g)], f)
  {
    var root := g.root.value;
    var r := g.rules[root];
    var m := NextId(g);
    NextIdFresh(g);
    BodyVars(g, rank, root);
    assert r[|r| - 1] in r;
    var q := Replaced(g, el, o, m);
    assert q[m] == [r[|r| - 1], el];
    FStarAgrees(g, rank, el, [r[|r| - 1], el]);
  }

  /** The root without its last symbol, with the earlier pair replaced when it lies there. */
  function RootPrefix(g: Grammar, el: Symbol, o: Occurrence, m: RuleId): seq<Symbol>
    requires g.root.Some? && g.root.value in g.rules && ReducibleAt(g, el, o)
  {
    var r := g.rules[g.root.value];
    var r' := r[..|r| - 1];
    if o.rule == g.root.value then r'[..o.pos] + [V(m)] + r'[o.pos + 2..] else r'
  }

  lemma RootPrefixFlat(g: Grammar, rank: Rank, el: Symbol, o: Occurrence)
    requires Valid(g, rank) && SymbolOk(g, el) && ReducibleAt(g, el, o)
    ensures var f, r := FStar(g, rank, el), g.rules[g.root.value];
      Flat(RootPrefix(g, el, o, NextId(g)), f) == Flat(r[..|r| - 1], ExpansionMap(g.rules, rank))
  {
    var root := g.root.value;
    var r := g.rules[root];
    var m := NextId(g);
    NextIdFresh(g);
    var f := FStar(g, rank, el);
    var r' := r[..|r| - 1];
    BodyVars(g, rank, root);
    FStarAgrees(g, rank, el, r');
    if o.rule == root {
      assert r'[o.pos] == r[|r| - 1] && r'[o.pos + 1] == el;
      ReplacedSolvesNew(g, rank, el, o);
      assert Replaced(g, el, o, m)[m] == [r'[o.pos], r'[o.pos + 1]];
      FlatReplacePair(r', o.pos, m, f);
    }
  }

  /** The root, with the pair at its end (and in Reduction Rule 2 also the earlier one) replaced. */
  lemma ReplacedSolvesRoot(g: Grammar, rank: Rank, el: Symbol, o: Occurrence)
    requires Valid(g, rank) && SymbolOk(g, el) && ReducibleAt(g, el, o)
    ensures var q, f, root := Replaced(g, el, o, NextId(g)), FStar(g, rank, el), g.root.value;
      root in q && root in f && f[root] == Flat(q[root], f)
  {
    var root := g.root.value;
    var r := g.rules[root];
    var m := NextId(g);
    NextIdFresh(g);
    var f0 := ExpansionMap(g.rules, rank);
    ExpansionSolves(g.rules, rank);
    var f := FStar(g, rank, el);
    var q := Replaced(g, el, o, m);
    var qr := RootPrefix(g, el, o, m);
    assert q[root] == qr + [V(m)];
    RootPrefixFlat(g, rank, el, o);
    assert f[m] == Flat([r[|r| - 1], el], f0);
    assert f[root] == Flat(r, f0) + FlatSym(el, f0);
    FlatEndReplaced(qr, m, f, r, el, f0);
  }

  /** The rule that held the earlier occurrence, in Reduction Rule 3. */
  lemma ReplacedSolvesOrigin(g: Grammar, rank: Rank, el: Symbol, o: Occurrence)
    requires Valid(g, rank) && SymbolOk(g, el) && ReducibleAt(g, el, o) && o.rule != g.root.value
    ensures var q, f := Replaced(g, el, o, NextId(g)), FStar(g, rank, el);
      o.rule in q && o.rule in f && f[o.rule] == Flat(q[o.rule], f)
  {
    var m := NextId(g);
    NextIdFresh(g);
    ExpansionSolves(g.rules, rank);
    var f := FStar(g, rank, el);
    var q := Replaced(g, el, o, m);
    var b := g.rules[o.rule];
    assert q[o.rule] == b[..o.pos] + [V(m)] + b[o.pos + 2..];
    BodyVars(g, rank, o.rule);
    FStarAgrees(g, rank, el, b);
    assert b[o.pos] in b && b[o.pos + 1] in b;
    FStarAgrees(g, rank, el, [b[o.pos], b[o.pos + 1]]);
    ReplacedSolvesNew(g, rank, el, o);
    FlatReplacePair(b, o.pos, m, f);
  }

  lemma ReplacedSolves(g: Grammar, rank: Rank, el: Symbol, o: Occurrence)
    requires Valid(g, rank) && SymbolOk(g, el) && ReducibleAt(g, el, o)
    ensures Solves(Replaced(g, el, o, NextId(g)), FStar(g, rank, el))
  {
    var root := g.root.value;
    var m := NextId(g);
    NextIdFresh(g);
    ExpansionSolves(g.rules, rank);
    var f := FStar(g, rank, el);
    var q := Replaced(g, el, o, m);
    ReplacedSolvesNew(g, rank, el, o);
    ReplacedSolvesRoot(g, rank, el, o);
    if o.rule != root {
      ReplacedSolvesOrigin(g, rank, el, o);
    }
    forall i | i in q ensures i in f && f[i] == Flat(q[i], f) {
      if i != m && i != root && i != o.rule {
        ReplacedSolvesOther(g, rank, el, o, i);
      }
    }
  }

  /** A rule that Reduction Rules 2 and 3 leave alone keeps its string. */
  lemma ReplacedSolvesOther(g: Grammar, rank: Rank, el: Symbol, o: Occurrence, i: RuleId)
    requires Valid(g, rank) && ReducibleAt(g, el, o)
    requires i in Replaced(g, el, o, NextId(g)) && i != NextId(g) && i != g.root.value && i != o.rule
    ensures var q, f := Replaced(g, el, o, NextId(g)), FStar(g, rank, el);
      i in f && f[i] == Flat(q[i], f)
  {
    assert Replaced(g, el, o, NextId(g))[i] == g.rules[i];
    ExpansionSolves(g.rules, rank);
    BodyVars(g, rank, i);
    FStarAgrees(g, rank, el, g.rules[i]);
  }

  /** Appending el to the root extends the root's string by el's. */
  lemma PushedSolves(g: Grammar, rank: Rank, el: Symbol)
    requires Valid(g, rank) && SymbolOk(g, el)
    ensures Solves(Pushed(g, rank, el).rules, FStar(g, rank, el))
  {
    var root := g.root.value;
    var r := g.rules[root];
    NextIdFresh(g);
    var f0 := ExpansionMap(g.rules, rank);
    ExpansionSolves(g.rules, rank);
    var f := FStar(g, rank, el);
    var q := Pushed(g, rank, el).rules;
    forall i | i in q ensures i in f && f[i] == Flat(q[i], f) {
      if i == root {
        PushedSolvesRoot(g, rank, el);
      } else {
        BodyVars(g, rank, i);
        FStarAgrees(g, rank, el, g.rules[i]);
      }
    }
  }

  /** PushedSolves for the root rule. */
  lemma PushedSolvesRoot(g: Grammar, rank: Rank, el: Symbol)
    requires Valid(g, rank) && SymbolOk(g, el)
    ensures var root, f := g.root.value, FStar(g, rank, el);
      root in f && f[root] == Flat(g.rules[root] + [el], f)
  {
    var root := g.root.value;
    var r := g.rules[root];
    NextIdFresh(g);
    var f0 := ExpansionMap(g.rules, rank);
    ExpansionSolves(g.rules, rank);
    var f := FStar(g, rank, el);
    BodyVars(g, rank, root);
    FStarAgrees(g, rank, el, r);
    FlatAppend(r, [el], f);
    FlatOne(el, f);
    FlatOne(el, f0);
    assert FlatSym(el, f) == FlatSym(el, f0);
  }

  /**
   * The right sides after Reduction Rule 1 removes rule n, the variable
   * the root ended with, from the front of the new rule m.
   */
  function Merged(g: Grammar, el: Symbol, o: Occurrence, m: RuleId): Rules
    requires g.root.Some? && g.root.value in g.rules && ReducibleAt(g, el, o)
    requires var r := g.rules[g.root.value]; r[|r| - 1].V? && r[|r| - 1].id in g.rules
  {
    var r := g.rules[g.root.value];
    var n := r[|r| - 1].id;
    Replaced(g, el, o, m)[m := g.rules[n] + [el]] - {n}
  }

  /** The merged right side flattens to the string of rule n followed by el's. */
  lemma MergedBodyFlat(g: Grammar, rank: Rank, el: Symbol, n: RuleId)
    requires Valid(g, rank) && SymbolOk(g, el) && n in g.rules
    ensures var f, f0 := FStar(g, rank, el), ExpansionMap(g.rules, rank);
      Flat(g.rules[n] + [el], f) == f0[n] + FlatSym(el, f0)
  {
    var f0 := ExpansionMap(g.rules, rank);
    ExpansionSolves(g.rules, rank);
    var f := FStar(g, rank, el);
    BodyVars(g, rank, n);
    FStarAgrees(g, rank, el, g.rules[n]);
    FlatAppend(g.rules[n], [el], f);
    FlatOne(el, f);
    NextIdFresh(g);
    assert FlatSym(el, f) == FlatSym(el, f0);
  }

  /** The new rule, after Reduction Rule 1, still stands for the pair's string. */
  lemma MergedSolvesNew(g: Grammar, rank: Rank, el: Symbol, n: RuleId)
    requires Valid(g, rank) && SymbolOk(g, el) && n in g.rules
    requires var r := g.rules[g.root.value]; |r| >= 1 && r[|r| - 1] == V(n)
    ensures var f := FStar(g, rank, el);
      NextId(g) in f && f[NextId(g)] == Flat(g.rules[n] + [el], f)
  {
    var r := g.rules[g.root.value];
    NextIdFresh(g);
    var f0 := ExpansionMap(g.rules, rank);
    var f := FStar(g, rank, el);
    assert r != [] && r[|r| - 1] == V(n);
    assert f[NextId(g)] == Flat([V(n), el], f0);
    FlatPair(V(n), el, f0);
    assert FlatSym(V(n), f0) == f0[n];
    MergedBodyFlat(g, rank, el, n);
  }

  lemma MergedSolves(g: Grammar, rank: Rank, el: Symbol, o: Occurrence)
    requires Valid(g, rank) && SymbolOk(g, el) && ReducibleAt(g, el, o)
    requires var r := g.rules[g.root.value]; r[|r| - 1].V?
    ensures var r := g.rules[g.root.value];
      r[|r| - 1].id in g.rules && Solves(Merged(g, el, o, NextId(g)), FStar(g, rank, el))
  {
    var root := g.root.value;
    var r := g.rules[root];
    var m := NextId(g);
    BodyVars(g, rank, root);
    assert r[|r| - 1] in r;
    var n := r[|r| - 1].id;
    var f := FStar(g, rank, el);
    ReplacedSolves(g, rank, el, o);
    MergedSolvesNew(g, rank, el, n);
    SolvesSetDrop(Replaced(g, el, o, m), f, m, g.rules[n] + [el], n);
  }

  // ---------------------------------------------------------------------
  // Reductions keep the grammar acyclic
  // ---------------------------------------------------------------------

  lemma AppendRankFacts(g: Grammar, rank: Rank, el: Symbol)
    requires Valid(g, rank) && SymbolOk(g, el)
    ensures var rank', root, m, r := AppendRank(g, rank, el), g.root.value, NextId(g), g.rules[g.root.value];
      (forall i :: i in g.rules && i != root ==> i in rank' && rank'[i] == 2 * rank[i] + 2)
      && m in rank' && root in rank' && m != root
      && rank'[root] > rank'[m] && rank'[root] >= 2 * rank[root] + 2
      && rank'[m] > ScaledRank(rank, el)
      && (r != [] ==> rank'[m] > ScaledRank(rank, r[|r| - 1]))
      && (el.V? ==> el.id in rank && ScaledRank(rank, el) == 2 * rank[el.id] + 2)
  {
    NextIdFresh(g);
  }

  /** Every variable of an old right side other than the root's ranks below bound once ranks are scaled. */
  lemma ScaledBelow(g: Grammar, rank: Rank, el: Symbol, s: seq<Symbol>, q: Rules, bound: nat)
    requires Valid(g, rank) && SymbolOk(g, el)
    requires forall x :: x in s && x.V? ==> x.id in g.rules && x.id != g.root.value && 2 * rank[x.id] + 2 < bound
    requires forall i :: i in g.rules ==> i in q
    ensures forall x :: x in s && x.V? ==> x.id in q && x.id in AppendRank(g, rank, el) && AppendRank(g, rank, el)[x.id] < bound
  {
    AppendRankFacts(g, rank, el);
  }

  /** The variables of rule i's right side, i not the root, rank below i. */
  lemma OldBodyBelow(g: Grammar, rank: Rank, i: RuleId)
    requires Valid(g, rank) && i in g.rules
    ensures forall x :: x in g.rules[i] && x.V? ==>
      x.id in g.rules && x.id != g.root.value && x.id != NextId(g) && 2 * rank[x.id] + 2 < 2 * rank[i] + 2
  {
    BodyVars(g, rank, i);
  }

  lemma PushedRanked(g: Grammar, rank: Rank, el: Symbol)
    requires Valid(g, rank) && SymbolOk(g, el)
    ensures Ranked(Pushed(g, rank, el).rules, AppendRank(g, rank, el))
  {
    var root := g.root.value;
    var r := g.rules[root];
    var q := Pushed(g, rank, el).rules;
    var rank' := AppendRank(g, rank, el);
    AppendRankFacts(g, rank, el);
    forall i | i in q ensures i in rank' && Below(q, rank', q[i], rank'[i]) {
      OldBodyBelow(g, rank, i);
      if i == root {
        ScaledBelow(g, rank, el, r, q, rank'[root]);
        assert q[i] == r + [el];
        BelowOf(q, rank', r + [el], rank'[i]);
      } else {
        ScaledBelow(g, rank, el, g.rules[i], q, rank'[i]);
        BelowOf(q, rank', q[i], rank'[i]);
      }
    }
  }

  /** Where a symbol of a right side after a reduction at o comes from. */
  lemma ReplacedAt(g: Grammar, rank: Rank, el: Symbol, o: Occurrence, i: RuleId, k: nat) returns (k': nat)
    requires Valid(g, rank) && SymbolOk(g, el) && ReducibleAt(g, el, o)
    requires var q := Replaced(g, el, o, NextId(g)); i in q && i != NextId(g) && k < |q[i]|
    ensures var q, root, m := Replaced(g, el, o, NextId(g)), g.root.value, NextId(g);
      if q[i][k] == V(m) then (i == root && k == |q[root]| - 1) || (i == o.rule && k == o.pos)
      else i in g.rules && k' < |g.rules[i]| && g.rules[i][k'] == q[i][k]
           && (i == root ==> k' < |g.rules[root]| - 1) && (i == o.rule ==> k' != o.pos && k' != o.pos + 1)
  {
    NextIdUnused(g, rank);
    k' := k;
    if i == g.root.value && k == |Replaced(g, el, o, NextId(g))[i]| - 1 {
      ReplacedRootEnd(g, el, o);
      return;
    }
    if i == o.rule {
      k' := ReplacedAtOrigin(g, el, o, k);
    } else {
      ReplacedAtOther(g, el, o, i, k);
    }
  }

  /** After a reduction the root ends with the new variable. */
  lemma ReplacedRootEnd(g: Grammar, el: Symbol, o: Occurrence)
    requires g.root.Some? && g.root.value in g.rules && ReducibleAt(g, el, o)
    ensures var q, root := Replaced(g, el, o, NextId(g)), g.root.value;
      root in q && |q[root]| >= 1 && q[root][|q[root]| - 1] == V(NextId(g))
  {
    var m := NextId(g);
    assert Replaced(g, el, o, m)[g.root.value] == RootPrefix(g, el, o, m) + [V(m)];
  }

  /** No right side names the next rule id. */
  lemma NextIdUnused(g: Grammar, rank: Rank)
    requires Valid(g, rank)
    ensures NextId(g) !in g.rules && forall j :: j in g.rules ==> V(NextId(g)) !in g.rules[j]
  {
    NextIdFresh(g);
    forall j | j in g.rules ensures V(NextId(g)) !in g.rules[j] {
      BodyVars(g, rank, j);
    }
  }

  /** ReplacedAt in the rule that held the earlier occurrence. */
  lemma ReplacedAtOrigin(g: Grammar, el: Symbol, o: Occurrence, k: nat) returns (k': nat)
    requires g.root.Some? && g.root.value in g.rules && ReducibleAt(g, el, o)
    requires forall j :: j in g.rules ==> V(NextId(g)) !in g.rules[j]
    requires var q := Replaced(g, el, o, NextId(g)); o.rule != NextId(g) && k < |q[o.rule]|
    requires o.rule == g.root.value ==> k != |Replaced(g, el, o, NextId(g))[o.rule]| - 1
    ensures var q, root, m, i := Replaced(g, el, o, NextId(g)), g.root.value, NextId(g), o.rule;
      if q[i][k] == V(m) then k == o.pos
      else i in g.rules && k' < |g.rules[i]| && g.rules[i][k'] == q[i][k]
           && (i == root ==> k' < |g.rules[root]| - 1) && k' != o.pos && k' != o.pos + 1
  {
    var root := g.root.value;
    var r := g.rules[root];
    var m := NextId(g);
    var q := Replaced(g, el, o, m);
    var b0 := if o.rule == root then r[..|r| - 1] else g.rules[o.rule];
    var p := o.pos;
    assert k < |b0| - 1;
    assert q[o.rule][k] == (b0[..p] + [V(m)] + b0[p + 2..])[k];
    ReplacedIndex(b0, p, m, k);
    k' := if k > p then k + 1 else k;
    if k != p {
      assert g.rules[o.rule][k'] == b0[k'];
      assert g.rules[o.rule][k'] in g.rules[o.rule];
    }
  }

  /** ReplacedAt in a rule other than the one that held the earlier occurrence. */
  lemma ReplacedAtOther(g: Grammar, el: Symbol, o: Occurrence, i: RuleId, k: nat)
    requires g.root.Some? && g.root.value in g.rules && ReducibleAt(g, el, o)
    requires forall j :: j in g.rules ==> V(NextId(g)) !in g.rules[j]
    requires var q := Replaced(g, el, o, NextId(g)); i in q && i != NextId(g) && i != o.rule && k < |q[i]|
    requires i == g.root.value ==> k != |Replaced(g, el, o, NextId(g))[i]| - 1
    ensures var q, root, m := Replaced(g, el, o, NextId(g)), g.root.value, NextId(g);
      q[i][k] != V(m) && i in g.rules && k < |g.rules[i]| && g.rules[i][k] == q[i][k]
      && (i == root ==> k < |g.rules[root]| - 1)
  {
    assert Replaced(g, el, o, NextId(g))[i][k] == g.rules[i][k];
    assert g.rules[i][k] in g.rules[i];
  }

  /** After a reduction, the new variable occurs at the end of the root and at one other place. */
  lemma ReplacedRepeat(g: Grammar, rank: Rank, el: Symbol, o: Occurrence)
    requires Valid(g, rank) && SymbolOk(g, el) && ReducibleAt(g, el, o)
    ensures var q, root, m := Replaced(g, el, o, NextId(g)), g.root.value, NextId(g);
      |q[root]| >= 1 && q[root][|q[root]| - 1] == V(m)
      && forall i, k :: i in q && 0 <= k < |q[i]| && q[i][k] == V(m) && (i != root || k != |q[root]| - 1) ==>
           i == o.rule && k == o.pos
  {
    var root := g.root.value;
    var m := NextId(g);
    NextIdFresh(g);
    var q := Replaced(g, el, o, m);
    var r := g.rules[root];
    assert r[|r| - 1] in r;
    BodyVars(g, rank, root);
    forall i, k | i in q && 0 <= k < |q[i]| && q[i][k] == V(m) && (i != root || k != |q[root]| - 1)
      ensures i == o.rule && k == o.pos
    {
      if i != m {
        var k' := ReplacedAt(g, rank, el, o, i, k);
      }
    }
  }

  /**
   * When I is set, the root ended with V(n) and V(n) occurred at most
   * once elsewhere: at o.  The reduction replaces both, so outside the
   * new rule V(n) no longer occurs, and el is not V(n).
   */
  lemma ReplacedDropsN(g: Grammar, rank: Rank, el: Symbol, o: Occurrence)
    requires Valid(g, rank) && SymbolOk(g, el) && ReducibleAt(g, el, o) && g.variablesAdded
    ensures var q, r, m := Replaced(g, el, o, NextId(g)), g.rules[g.root.value], NextId(g);
      var n := r[|r| - 1].id;
      n != o.rule && el != V(n)
      && forall i, k :: i in q && i != m && 0 <= k < |q[i]| ==> q[i][k] != V(n)
  {
    var root := g.root.value;
    var r := g.rules[root];
    var m := NextId(g);
    NextIdFresh(g);
    var q := Replaced(g, el, o, m);
    var n := r[|r| - 1].id;
    var e := |r| - 1;
    assert g.rules[o.rule][o.pos] == V(n);
    assert g.rules[o.rule][o.pos] in g.rules[o.rule];
    BodyVars(g, rank, o.rule);
    BelowIn(g.rules, rank, g.rules[o.rule], rank[o.rule]);
    assert o.rule != root || o.pos != e;
    if el == V(n) {
      assert false;
    }
    ReplacedNoN(g, rank, el, o);
  }

  /** ReplacedDropsN for the right sides: V(n) occurs only in the new rule. */
  lemma ReplacedNoN(g: Grammar, rank: Rank, el: Symbol, o: Occurrence)
    requires Valid(g, rank) && SymbolOk(g, el) && ReducibleAt(g, el, o) && g.variablesAdded
    ensures var q, r, m := Replaced(g, el, o, NextId(g)), g.rules[g.root.value], NextId(g);
      forall i, k :: i in q && i != m && 0 <= k < |q[i]| ==> q[i][k] != r[|r| - 1]
  {
    var q, r, m := Replaced(g, el, o, NextId(g)), g.rules[g.root.value], NextId(g);
    forall i, k | i in q && i != m && 0 <= k < |q[i]| ensures q[i][k] != r[|r| - 1] {
      ReplacedNoNAt(g, rank, el, o, i, k);
    }
  }

  /** ReplacedNoN at one position. */
  lemma ReplacedNoNAt(g: Grammar, rank: Rank, el: Symbol, o: Occurrence, i: RuleId, k: nat)
    requires Valid(g, rank) && SymbolOk(g, el) && ReducibleAt(g, el, o) && g.variablesAdded
    requires var q := Replaced(g, el, o, NextId(g)); i in q && i != NextId(g) && k < |q[i]|
    ensures var q, r := Replaced(g, el, o, NextId(g)), g.rules[g.root.value]; q[i][k] != r[|r| - 1]
  {
    var q, root, m := Replaced(g, el, o, NextId(g)), g.root.value, NextId(g);
    var r := g.rules[root];
    RepeatFacts(g, rank);
    var n := r[|r| - 1].id;
    NextIdFresh(g);
    var k' := ReplacedAt(g, rank, el, o, i, k);
    if q[i][k] != V(m) {
      OnlyOneOther(g.rules, n, root, |r| - 1, o.rule, o.pos, i, k');
    }
  }

  /** What I set tells about the end of the root. */
  lemma RepeatFacts(g: Grammar, rank: Rank)
    requires Valid(g, rank) && g.variablesAdded
    ensures var r := g.rules[g.root.value];
      |r| >= 1 && r[|r| - 1].V? && r[|r| - 1].id in g.rules && r[|r| - 1].id != g.root.value
      && AtMostOneOther(g.rules, r[|r| - 1].id, g.root.value, |r| - 1)
  {
  }

  /** Where V(n) occurs at most once besides position e of root, a second place does not hold it. */
  lemma OnlyOneOther(rules: Rules, n: RuleId, root: RuleId, e: nat, i: RuleId, k: nat, i2: RuleId, k2: nat)
    requires AtMostOneOther(rules, n, root, e)
    requires i in rules && k < |rules[i]| && rules[i][k] == V(n) && (i != root || k != e)
    requires i2 in rules && k2 < |rules[i2]| && (i2 != root || k2 != e) && (i2 != i || k2 != k)
    ensures rules[i2][k2] != V(n)
  {
  }

  /** The pair formed at the end of the root ranks below AppendRank's rank for the new rule. */
  lemma PairBelow(g: Grammar, rank: Rank, el: Symbol, q: Rules)
    requires Valid(g, rank) && SymbolOk(g, el) && |g.rules[g.root.value]| >= 1
    requires forall i :: i in g.rules ==> i in q
    ensures var r, rank' := g.rules[g.root.value], AppendRank(g, rank, el);
      NextId(g) in rank' && Below(q, rank', [r[|r| - 1], el], rank'[NextId(g)])
  {
    var r := g.rules[g.root.value];
    assert r[|r| - 1] in r;
    OldBodyBelow(g, rank, g.root.value);
    AppendRankFacts(g, rank, el);
  }

  lemma ReplacedRanked(g: Grammar, rank: Rank, el: Symbol, o: Occurrence)
    requires Valid(g, rank) && SymbolOk(g, el) && ReducibleAt(g, el, o)
    ensures Ranked(Replaced(g, el, o, NextId(g)), AppendRank(g, rank, el))
  {
    var root := g.root.value;
    var r := g.rules[root];
    var m := NextId(g);
    NextIdFresh(g);
    var q := Replaced(g, el, o, m);
    var rank' := AppendRank(g, rank, el);
    AppendRankFacts(g, rank, el);
    forall i | i in q ensures i in rank' && Below(q, rank', q[i], rank'[i]) {
      if i == m {
        PairBelow(g, rank, el, q);
      } else {
        ReplacedRankedAt(g, rank, el, o, i);
      }
    }
  }

  /** ReplacedRanked for a rule other than the new one. */
  lemma ReplacedRankedAt(g: Grammar, rank: Rank, el: Symbol, o: Occurrence, i: RuleId)
    requires Valid(g, rank) && SymbolOk(g, el) && ReducibleAt(g, el, o)
    requires i in Replaced(g, el, o, NextId(g)) && i != NextId(g)
    ensures var q, rank' := Replaced(g, el, o, NextId(g)), AppendRank(g, rank, el);
      i in rank' && Below(q, rank', q[i], rank'[i])
  {
    var root := g.root.value;
    var m := NextId(g);
    var q: Rules := Replaced(g, el, o, m);
    var rank' := AppendRank(g, rank, el);
    AppendRankFacts(g, rank, el);
    forall k: int | 0 <= k < |q[i]| && q[i][k].V?
      ensures q[i][k].id in q && q[i][k].id in rank' && rank'[q[i][k].id] < rank'[i]
    {
      ReplacedBelowAt(g, rank, el, o, i, k);
    }
  }

  /** ReplacedRanked at one position of a rule other than the new one. */
  lemma ReplacedBelowAt(g: Grammar, rank: Rank, el: Symbol, o: Occurrence, i: RuleId, k: nat)
    requires Valid(g, rank) && SymbolOk(g, el) && ReducibleAt(g, el, o)
    requires var q := Replaced(g, el, o, NextId(g)); i in q && i != NextId(g) && k < |q[i]| && q[i][k].V?
    ensures var q, rank' := Replaced(g, el, o, NextId(g)), AppendRank(g, rank, el);
      i in rank' && q[i][k].id in q && q[i][k].id in rank' && rank'[q[i][k].id] < rank'[i]
  {
    var root := g.root.value;
    var m := NextId(g);
    var q := Replaced(g, el, o, m);
    var rank' := AppendRank(g, rank, el);
    NextIdFresh(g);
    AppendRankFacts(g, rank, el);
    var k' := ReplacedAt(g, rank, el, o, i, k);
    if q[i][k] != V(m) {
      OldBodyBelow(g, rank, i);
      assert g.rules[i][k'] in g.rules[i];
    } else if i != root {
      assert g.rules[o.rule][o.pos] in g.rules[o.rule] && g.rules[o.rule][o.pos + 1] in g.rules[o.rule];
      OldBodyBelow(g, rank, o.rule);
    }
  }

  /** The merged right side of the new rule ranks below it. */
  lemma MergedNewBelow(g: Grammar, rank: Rank, el: Symbol, o: Occurrence)
    requires Valid(g, rank) && SymbolOk(g, el) && ReducibleAt(g, el, o) && g.variablesAdded
    ensures var r := g.rules[g.root.value]; var n, q' := r[|r| - 1].id, Merged(g, el, o, NextId(g));
      var rank' := AppendRank(g, rank, el);
      NextId(g) in rank' && Below(q', rank', g.rules[n] + [el], rank'[NextId(g)])
  {
    RepeatFacts(g, rank);
    var r := g.rules[g.root.value];
    var m := NextId(g);
    var n := r[|r| - 1].id;
    assert r[|r| - 1] == V(n);
    var q' := Merged(g, el, o, m);
    var rank' := AppendRank(g, rank, el);
    MergedKeys(g, el, o, m);
    MergedNewVars(g, rank, el, o, n);
    BelowOf(q', rank', g.rules[n] + [el], rank'[m]);
  }

  /** Reduction Rule 1 after Reduction Rule 2 or 3 adds rule m and removes rule n. */
  lemma MergedKeys(g: Grammar, el: Symbol, o: Occurrence, m: RuleId)
    requires g.root.Some? && g.root.value in g.rules && ReducibleAt(g, el, o)
    requires var r := g.rules[g.root.value]; r[|r| - 1].V? && r[|r| - 1].id in g.rules
    ensures var r := g.rules[g.root.value];
      Merged(g, el, o, m).Keys == g.rules.Keys + {m} - {r[|r| - 1].id}
  {
    ReplacedKeys(g, el, o, m);
  }

  /** MergedNewBelow for each variable of the merged right side. */
  lemma MergedNewVars(g: Grammar, rank: Rank, el: Symbol, o: Occurrence, n: RuleId)
    requires Valid(g, rank) && SymbolOk(g, el) && ReducibleAt(g, el, o) && g.variablesAdded
    requires var r := g.rules[g.root.value]; |r| >= 1 && r[|r| - 1] == V(n) && n in g.rules
    requires Merged(g, el, o, NextId(g)).Keys == g.rules.Keys + {NextId(g)} - {n}
    ensures var q', rank' := Merged(g, el, o, NextId(g)), AppendRank(g, rank, el);
      NextId(g) in rank'
      && forall x :: x in g.rules[n] + [el] && x.V? ==> x.id in q' && x.id in rank' && rank'[x.id] < rank'[NextId(g)]
  {
    var q', rank' := Merged(g, el, o, NextId(g)), AppendRank(g, rank, el);
    AppendRankFacts(g, rank, el);
    if el.V? {
      MergedNewEl(g, rank, el, o);
    }
    forall x | x in g.rules[n] + [el] && x.V? ensures x.id in q' && x.id in rank' && rank'[x.id] < rank'[NextId(g)] {
      if x != el {
        MergedNewOld(g, rank, el, n, x);
      }
    }
  }

  /** The appended symbol, as a variable, names a rule that stays and ranks below the new rule. */
  lemma MergedNewEl(g: Grammar, rank: Rank, el: Symbol, o: Occurrence)
    requires Valid(g, rank) && SymbolOk(g, el) && ReducibleAt(g, el, o) && g.variablesAdded && el.V?
    ensures var r, rank' := g.rules[g.root.value], AppendRank(g, rank, el);
      el.id in g.rules && el.id != r[|r| - 1].id && el.id != NextId(g)
      && NextId(g) in rank' && el.id in rank' && rank'[el.id] < rank'[NextId(g)]
  {
    AppendRankFacts(g, rank, el);
    ReplacedDropsN(g, rank, el, o);
    NextIdFresh(g);
  }

  /** A variable of the right side of rule n names a rule that stays and ranks below the new rule. */
  lemma MergedNewOld(g: Grammar, rank: Rank, el: Symbol, n: RuleId, x: Symbol)
    requires Valid(g, rank) && SymbolOk(g, el)
    requires var r := g.rules[g.root.value]; |r| >= 1 && r[|r| - 1] == V(n) && n in g.rules
    requires x in g.rules[n] && x.V?
    ensures var rank' := AppendRank(g, rank, el);
      x.id in g.rules && x.id != n && x.id != NextId(g)
      && NextId(g) in rank' && x.id in rank' && rank'[x.id] < rank'[NextId(g)]
  {
    AppendRankFacts(g, rank, el);
    OldBodyBelow(g, rank, n);
  }

  /** After Reduction Rule 1 merges rule n into the new rule, the grammar is still acyclic. */
  lemma MergedRanked(g: Grammar, rank: Rank, el: Symbol, o: Occurrence)
    requires Valid(g, rank) && SymbolOk(g, el) && ReducibleAt(g, el, o) && g.variablesAdded
    ensures Ranked(Merged(g, el, o, NextId(g)), AppendRank(g, rank, el))
  {
    var root := g.root.value;
    var r := g.rules[root];
    var m := NextId(g);
    var n := r[|r| - 1].id;
    var q := Replaced(g, el, o, m);
    var q' := Merged(g, el, o, m);
    var rank' := AppendRank(g, rank, el);
    ReplacedRanked(g, rank, el, o);
    ReplacedDropsN(g, rank, el, o);
    forall i | i in q' ensures i in rank' && Below(q', rank', q'[i], rank'[i]) {
      if i == m {
        MergedNewBelow(g, rank, el, o);
      } else {
        assert q'[i] == q[i];
        forall k | 0 <= k < |q[i]| && q[i][k].V?
          ensures q[i][k].id in q' && q[i][k].id in rank' && rank'[q[i][k].id] < rank'[i]
        {
        }
      }
    }
  }

  // ---------------------------------------------------------------------
  // Reductions keep the invariant
  // ---------------------------------------------------------------------

  /** Appending el keeps the invariant, with I cleared. */
  lemma PushedIntact(g: Grammar, rank: Rank, el: Symbol)
    requires Valid(g, rank) && SymbolOk(g, el)
    ensures var g1 := Pushed(g, rank, el);
      Intact(g1.(variablesAdded := false)) && g1.size == g.size + 1
  {
    var root := g.root.value;
    var r := g.rules[root];
    var g1 := Pushed(g, rank, el);
    TotalUpdate(g.rules, g.ruleSet, root, r + [el]);
    assert V(root) !in r + [el];
  }

  /** The lengths after a reduction at o: one symbol less on the listed rules, two on the new one. */
  lemma ReplacedSize(g: Grammar, rank: Rank, el: Symbol, o: Occurrence)
    requires Valid(g, rank) && SymbolOk(g, el) && ReducibleAt(g, el, o)
    ensures Total(Replaced(g, el, o, NextId(g)), g.ruleSet + [NextId(g)]) == g.size + 1
  {
    var root := g.root.value;
    var r := g.rules[root];
    var m := NextId(g);
    NextIdFresh(g);
    var q := Replaced(g, el, o, m);
    TotalConcat(q, g.ruleSet, [m]);
    assert Total(q, [m]) == 2 by { assert [m][..0] == []; }
    ReplacedListedSize(g, el, o);
  }

  /** Reduction Rules 2 and 3 take one symbol off the listed rules. */
  lemma ReplacedListedSize(g: Grammar, el: Symbol, o: Occurrence)
    requires g.root.Some? && g.root.value in g.rules && ReducibleAt(g, el, o)
    requires RuleSetOk(g) && NextId(g) !in g.rules
    ensures Total(Replaced(g, el, o, NextId(g)), g.ruleSet) + 1 == Total(g.rules, g.ruleSet)
  {
    var root := g.root.value;
    var m := NextId(g);
    var q := Replaced(g, el, o, m);
    var b := g.rules[o.rule];
    if o.rule == root {
      TotalChange(g.rules, q, g.ruleSet, root);
    } else {
      var r1 := g.rules[o.rule := b[..o.pos] + [V(m)] + b[o.pos + 2..]];
      TotalChange(g.rules, r1, g.ruleSet, o.rule);
      TotalFrame(r1, q, g.ruleSet);
    }
  }

  /** The right sides after a reduction name neither the root nor, but for the new rule, fall below two symbols. */
  lemma ReplacedShape(g: Grammar, rank: Rank, el: Symbol, o: Occurrence)
    requires Valid(g, rank) && SymbolOk(g, el) && ReducibleAt(g, el, o)
    ensures var q, root := Replaced(g, el, o, NextId(g)), g.root.value;
      (forall i :: i in q ==> V(root) !in q[i])
      && (forall i :: i in q && i != root ==> |q[i]| >= 2)
  {
    var root := g.root.value;
    var r := g.rules[root];
    var m := NextId(g);
    NextIdFresh(g);
    var q := Replaced(g, el, o, m);
    forall i | i in q ensures V(root) !in q[i] {
      if i == m {
        assert q[m] == [r[|r| - 1], el];
        assert r[|r| - 1] in r;
      } else {
        forall k | 0 <= k < |q[i]| ensures q[i][k] != V(root) {
          var k' := ReplacedAt(g, rank, el, o, i, k);
          if q[i][k] != V(m) {
            assert g.rules[i][k'] in g.rules[i];
          }
        }
      }
    }
  }

  /** The rule list and the ids after Reduction Rule 2 or 3. */
  lemma ReducedIds(g: Grammar, rank: Rank, el: Symbol, o: Occurrence)
    requires g.root.Some? && g.root.value in g.rules && Ranked(g.rules, rank) && (el.V? ==> el.id in g.rules)
    requires RuleSetOk(g) && IdsOk(g) && ReducibleAt(g, el, o)
    ensures var g3 := ReducedState(g, rank, el, o).(variablesAdded := true);
      RuleSetOk(g3) && IdsOk(g3) && g3.ruleSet == g.ruleSet + [NextId(g)]
  {
    var r := g.rules[g.root.value];
    var m := NextId(g);
    NextIdFresh(g);
    var g1 := Pushed(g, rank, el);
    PushedIds(g, rank, el);
    CreatedIds(g1, [r[|r| - 1], el]);
    ReplacedKeys(g, el, o, m);
  }

  /** Reduction Rules 2 and 3 add rule m and no other. */
  lemma ReplacedKeys(g: Grammar, el: Symbol, o: Occurrence, m: RuleId)
    requires g.root.Some? && g.root.value in g.rules && ReducibleAt(g, el, o)
    ensures Replaced(g, el, o, m).Keys == g.rules.Keys + {m}
  {
  }

  /** Appending to the root keeps the rule list and the ids in order. */
  lemma PushedIds(g: Grammar, rank: Rank, el: Symbol)
    requires g.root.Some? && g.root.value in g.rules && Ranked(g.rules, rank) && (el.V? ==> el.id in g.rules)
    requires RuleSetOk(g) && IdsOk(g)
    ensures RuleSetOk(Pushed(g, rank, el)) && IdsOk(Pushed(g, rank, el))
  {
  }

  /** Creating a rule keeps the rule list and the ids in order. */
  lemma CreatedIds(g: Grammar, body: seq<Symbol>)
    requires RuleSetOk(g) && IdsOk(g)
    ensures var (g', id) := CreateRuleOf(g, body);
      RuleSetOk(g') && IdsOk(g') && id == NextId(g) && g'.ruleSet == g.ruleSet + [id]
      && g'.rules.Keys == g.rules.Keys + {id}
  {
    CreateRuleFresh(g, body);
  }

  /** The size after Reduction Rule 2 or 3. */
  lemma ReducedSized(g: Grammar, rank: Rank, el: Symbol, o: Occurrence)
    requires Valid(g, rank) && SymbolOk(g, el) && ReducibleAt(g, el, o)
    ensures var g3 := ReducedState(g, rank, el, o).(variablesAdded := true);
      SizeOk(g3) && QueueOk(g3) && g3.size == g.size + 1
  {
    var m := NextId(g);
    var g3 := ReducedState(g, rank, el, o).(variablesAdded := true);
    assert g3.rules == Replaced(g, el, o, m) && g3.ruleSet == g.ruleSet + [m];
    ReplacedSize(g, rank, el, o);
  }

  /** The right sides after Reduction Rule 2 or 3, with I set. */
  lemma ReducedBodies(g: Grammar, rank: Rank, el: Symbol, o: Occurrence)
    requires Valid(g, rank) && SymbolOk(g, el) && ReducibleAt(g, el, o)
    ensures var g3 := ReducedState(g, rank, el, o).(variablesAdded := true);
      g3.root == g.root && g3.root.value in g3.rules && NoRootRef(g3) && BodiesOk(g3) && RepeatOk(g3)
  {
    var m := NextId(g);
    NextIdFresh(g);
    var g3 := ReducedState(g, rank, el, o).(variablesAdded := true);
    assert g3.rules == Replaced(g, el, o, m);
    ReplacedShape(g, rank, el, o);
    ReplacedRepeat(g, rank, el, o);
  }

  /** Reduction Rule 2 or 3 followed by setting I keeps the invariant. */
  lemma ReducedIntact(g: Grammar, rank: Rank, el: Symbol, o: Occurrence)
    requires Valid(g, rank) && SymbolOk(g, el) && ReducibleAt(g, el, o)
    ensures var g2 := ReducedState(g, rank, el, o);
      Intact(g2.(variablesAdded := true)) && g2.size == g.size + 1
  {
    ReducedIds(g, rank, el, o);
    ReducedSized(g, rank, el, o);
    ReducedBodies(g, rank, el, o);
  }

  /** The grammar after Reduction Rule 2 or 3 and then Reduction Rule 1, which removes rule n. */
  function MergedState(g: Grammar, rank: Rank, el: Symbol, o: Occurrence): Grammar
    requires g.root.Some? && g.root.value in g.rules && Ranked(g.rules, rank) && (el.V? ==> el.id in g.rules)
    requires ReducibleAt(g, el, o)
    requires var r := g.rules[g.root.value]; r[|r| - 1].V? && r[|r| - 1].id in g.rules
  {
    var r := g.rules[g.root.value];
    var n := r[|r| - 1].id;
    var g2 := ReducedState(g, rank, el, o);
    g2.(available := g2.available + [n], rules := Merged(g, el, o, NextId(g)),
        ruleSet := Without(g2.ruleSet, n), size := g.size)
  }

  lemma Reduction1Shape(g: Grammar, rank: Rank, el: Symbol, o: Occurrence)
    requires g.root.Some? && g.root.value in g.rules && Ranked(g.rules, rank) && (el.V? ==> el.id in g.rules)
    requires ReducibleAt(g, el, o) && MergeReady(g, el, o)
    ensures var g2, m := ReducedState(g, rank, el, o), NextId(g);
      m in g2.rules && |g2.rules[m]| >= 1 && (g2.rules[m][0].V? ==> g2.rules[m][0].id in g2.rules)
      && Reduction1Of(g2, m) == Done(MergedState(g, rank, el, o))
  {
    var m := NextId(g);
    var g2 := ReducedState(g, rank, el, o);
    var q := Replaced(g, el, o, m);
    assert g2.rules == q;
    assert q[m][1..] == [q[m][1]];
  }

  lemma FreeRuleIds(g: Grammar, n: RuleId, rules: Rules, size: nat)
    requires RuleSetOk(g) && IdsOk(g) && n in g.rules && Some(n) != g.root
    requires rules.Keys == g.rules.Keys - {n}
    ensures var g' := g.(available := g.available + [n], rules := rules, ruleSet := Without(g.ruleSet, n), size := size);
      RuleSetOk(g') && IdsOk(g')
  {
    WithoutDistinct(g.ruleSet, n);
    assert n !in g.available;
  }

  /** The rule list and the ids after Reduction Rule 1 frees rule n. */
  lemma MergedIds(g: Grammar, rank: Rank, el: Symbol, o: Occurrence)
    requires g.root.Some? && g.root.value in g.rules && Ranked(g.rules, rank) && (el.V? ==> el.id in g.rules)
    requires RuleSetOk(g) && IdsOk(g) && ReducibleAt(g, el, o) && MergeReady(g, el, o)
    ensures var g4 := MergedState(g, rank, el, o);
      RuleSetOk(g4) && IdsOk(g4)
  {
    var r := g.rules[g.root.value];
    var n := r[|r| - 1].id;
    var g3 := ReducedState(g, rank, el, o);
    ReducedIds(g, rank, el, o);
    var q' := Merged(g, el, o, NextId(g));
    assert q'.Keys == g3.rules.Keys - {n};
    FreeRuleIds(g3, n, q', g.size);
  }

  /**
   * What Reduction Rule 1 finds after Reduction Rule 2 or 3 when I is
   * set: the root ended with a variable n, used only there and at the
   * occurrence o, so that the new rule m is [V(n), el] and n can be
   * inlined into it.
   */
  predicate MergeReady(g: Grammar, el: Symbol, o: Occurrence)
    requires g.root.Some? && g.root.value in g.rules && ReducibleAt(g, el, o)
  {
    var r, q, m := g.rules[g.root.value], Replaced(g, el, o, NextId(g)), NextId(g);
    r[|r| - 1].V?
    && var n := r[|r| - 1].id;
       n in g.rules && n in g.ruleSet && n != g.root.value && n != m && m !in g.rules
       && m in q && n in q && q[m] == [V(n), el] && q[n] == g.rules[n]
       && V(g.root.value) !in g.rules[n] && V(m) !in g.rules[n] && el != V(m) && |g.rules[n]| >= 2
  }

  lemma MergeFacts(g: Grammar, rank: Rank, el: Symbol, o: Occurrence)
    requires Valid(g, rank) && SymbolOk(g, el) && ReducibleAt(g, el, o) && g.variablesAdded
    ensures MergeReady(g, el, o)
  {
    var root := g.root.value;
    var r := g.rules[root];
    var n := r[|r| - 1].id;
    NextIdFresh(g);
    ReplacedDropsN(g, rank, el, o);
    assert r[|r| - 1] in r;
    BodyVars(g, rank, root);
    BodyVars(g, rank, n);
  }

  /** The size after Reduction Rule 1: the symbol added by the append is the one it removes. */
  lemma MergedSized(g: Grammar, rank: Rank, el: Symbol, o: Occurrence)
    requires Valid(g, rank) && SymbolOk(g, el) && ReducibleAt(g, el, o) && g.variablesAdded
    ensures var r, m := g.rules[g.root.value], NextId(g);
      Total(Merged(g, el, o, m), Without(g.ruleSet + [m], r[|r| - 1].id)) == g.size
  {
    var r := g.rules[g.root.value];
    var m := NextId(g);
    var n := r[|r| - 1].id;
    var q := Replaced(g, el, o, m);
    ReplacedSize(g, rank, el, o);
    MergeFacts(g, rank, el, o);
    DistinctSnoc(g.ruleSet, m);
    TotalMerge(q, g.ruleSet, m, n, g.rules[n] + [el]);
  }

  /** The right sides after Reduction Rule 1 name no root and, but for the root, keep two symbols. */
  lemma MergedShape(g: Grammar, rank: Rank, el: Symbol, o: Occurrence)
    requires Valid(g, rank) && SymbolOk(g, el) && ReducibleAt(g, el, o) && g.variablesAdded
    ensures var q', root := Merged(g, el, o, NextId(g)), g.root.value;
      (forall i :: i in q' ==> V(root) !in q'[i])
      && (forall i :: i in q' && i != root ==> |q'[i]| >= 2)
  {
    var root := g.root.value;
    var m := NextId(g);
    var q := Replaced(g, el, o, m);
    var q' := Merged(g, el, o, m);
    ReplacedShape(g, rank, el, o);
    MergeFacts(g, rank, el, o);
    forall i | i in q' ensures V(root) !in q'[i] && (i != root ==> |q'[i]| >= 2) {
      if i != m {
        assert q'[i] == q[i];
      }
    }
  }

  /** After Reduction Rule 1 the root still ends with the new variable, used once elsewhere. */
  lemma MergedRepeat(g: Grammar, rank: Rank, el: Symbol, o: Occurrence)
    requires Valid(g, rank) && SymbolOk(g, el) && ReducibleAt(g, el, o) && g.variablesAdded
    ensures var q', root, m := Merged(g, el, o, NextId(g)), g.root.value, NextId(g);
      root in q' && m in q' && m != root && |q'[root]| >= 1 && q'[root][|q'[root]| - 1] == V(m)
      && AtMostOneOther(q', m, root, |q'[root]| - 1)
  {
    MergeFacts(g, rank, el, o);
    ReplacedRepeat(g, rank, el, o);
    MergedRepeatFrom(g, el, o);
  }

  /** MergedRepeat from the facts it needs: the shape before Reduction Rule 1 and what Reduction Rule 1 finds. */
  lemma MergedRepeatFrom(g: Grammar, el: Symbol, o: Occurrence)
    requires g.root.Some? && g.root.value in g.rules && ReducibleAt(g, el, o) && MergeReady(g, el, o)
    requires var q, root, m := Replaced(g, el, o, NextId(g)), g.root.value, NextId(g);
      |q[root]| >= 1 && q[root][|q[root]| - 1] == V(m)
      && forall i, k :: i in q && 0 <= k < |q[i]| && q[i][k] == V(m) && (i != root || k != |q[root]| - 1) ==>
           i == o.rule && k == o.pos
    ensures var q', root, m := Merged(g, el, o, NextId(g)), g.root.value, NextId(g);
      root in q' && m in q' && m != root && |q'[root]| >= 1 && q'[root][|q'[root]| - 1] == V(m)
      && AtMostOneOther(q', m, root, |q'[root]| - 1)
  {
    var root := g.root.value;
    var m := NextId(g);
    var q := Replaced(g, el, o, m);
    var q' := Merged(g, el, o, m);
    assert q'[root] == q[root] && V(m) !in q'[m];
    OneOtherKept(q, q', m, root, |q[root]| - 1, o.rule, o.pos);
  }

  /** Right sides kept from q, and a new one for m without V(m), keep q's other occurrences of V(m). */
  lemma OneOtherKept(q: Rules, q': Rules, m: RuleId, root: RuleId, e: nat, oi: RuleId, ok: nat)
    requires forall i, k :: i in q && 0 <= k < |q[i]| && q[i][k] == V(m) && (i != root || k != e) ==> i == oi && k == ok
    requires forall i :: i in q' && i != m ==> i in q && q'[i] == q[i]
    requires m in q' ==> forall k :: 0 <= k < |q'[m]| ==> q'[m][k] != V(m)
    ensures AtMostOneOther(q', m, root, e)
  {
  }

  /** The right sides after Reduction Rule 1. */
  lemma MergedBodies(g: Grammar, rank: Rank, el: Symbol, o: Occurrence)
    requires Valid(g, rank) && SymbolOk(g, el) && ReducibleAt(g, el, o) && g.variablesAdded
    ensures var g4 := MergedState(g, rank, el, o);
      g4.root == g.root && g4.root.value in g4.rules && g4.variablesAdded
      && NoRootRef(g4) && BodiesOk(g4) && RepeatOk(g4)
  {
    MergedShape(g, rank, el, o);
    MergedRepeat(g, rank, el, o);
  }

  /** Reduction Rule 2 or 3 followed by Reduction Rule 1 keeps the invariant. */
  lemma MergedIntact(g: Grammar, rank: Rank, el: Symbol, o: Occurrence)
    requires Valid(g, rank) && SymbolOk(g, el) && ReducibleAt(g, el, o) && g.variablesAdded
    ensures var g4 := MergedState(g, rank, el, o);
      Intact(g4) && g4.size == g.size
  {
    MergeFacts(g, rank, el, o);
    MergedIds(g, rank, el, o);
    MergedSized(g, rank, el, o);
    ReducedIds(g, rank, el, o);
    MergedBodies(g, rank, el, o);
  }

  // ---------------------------------------------------------------------
  // appendToRootRule as a whole
  // ---------------------------------------------------------------------

  /** The pair formed by appending el has an earlier occurrence that a reduction replaces. */
  predicate Reduces(g: Grammar, el: Symbol)
    requires g.root.Some? && g.root.value in g.rules
  {
    var r := g.rules[g.root.value];
    r != [] && FindDigram(g, r[|r| - 1], el).Some? && ReducibleAt(g, el, FindDigram(g, r[|r| - 1], el).value)
  }

  /** The occurrence a reduction replaces. */
  function ReducedAt(g: Grammar, el: Symbol): Occurrence
    requires g.root.Some? && g.root.value in g.rules && Reduces(g, el)
  {
    var r := g.rules[g.root.value];
    FindDigram(g, r[|r| - 1], el).value
  }

  /** Without a reduction, appendToRootRule appends el and clears I. */
  lemma ReduceNone(g: Grammar, rank: Rank, el: Symbol)
    requires Valid(g, rank) && SymbolOk(g, el) && !Reduces(g, el)
    ensures Reduce(g, rank, el) == Done(Pushed(g, rank, el).(variablesAdded := false))
  {
  }

  /** With a reduction when I is clear, Reduction Rule 2 or 3 applies and I is set. */
  lemma ReduceOnce(g: Grammar, rank: Rank, el: Symbol)
    requires Valid(g, rank) && SymbolOk(g, el) && Reduces(g, el) && !g.variablesAdded
    ensures Reduce(g, rank, el) == Done(ReducedState(g, rank, el, ReducedAt(g, el)).(variablesAdded := true))
  {
    var o := ReducedAt(g, el);
    if o.rule == g.root.value {
      Reduction2Shape(g, rank, el, o);
    } else {
      Reduction3Shape(g, rank, el, o);
    }
  }

  /** With a reduction when I is set, Reduction Rule 1 follows and removes the rule the root ended with. */
  lemma ReduceMerge(g: Grammar, rank: Rank, el: Symbol)
    requires Valid(g, rank) && SymbolOk(g, el) && Reduces(g, el) && g.variablesAdded
    ensures Reduce(g, rank, el) == Done(MergedState(g, rank, el, ReducedAt(g, el)))
  {
    var o := ReducedAt(g, el);
    MergeFacts(g, rank, el, o);
    ReduceMergeAt(g, rank, el, o);
  }

  /** ReduceMerge, once the reduced occurrence o is known to be ready for the merge. */
  lemma ReduceMergeAt(g: Grammar, rank: Rank, el: Symbol, o: Occurrence)
    requires g.root.Some? && g.root.value in g.rules && Ranked(g.rules, rank) && (el.V? ==> el.id in g.rules)
    requires IdsOk(g) && g.variablesAdded && ReducibleAt(g, el, o) && MergeReady(g, el, o)
    requires var r := g.rules[g.root.value]; FindDigram(g, r[|r| - 1], el) == Some(o)
    ensures Reduce(g, rank, el) == Done(MergedState(g, rank, el, o))
  {
    Reduction1Shape(g, rank, el, o);
    if o.rule == g.root.value {
      Reduction2Shape(g, rank, el, o);
    } else {
      Reduction3Shape(g, rank, el, o);
    }
  }

  /**
   * The symbol waiting to be installed after the reductions: one is
   * announced when a reduction creates a rule with a never-used id.
   */
  function InstallAfter(g: Grammar, reduces: bool): int
  {
    if reduces && g.available == [] then g.lastFixedSymbol + g.ruleCounter else g.newSymbolToInstall
  }

  /**
   * What the reductions leave, given whether one happened: the invariant,
   * the ranks and the strings are kept.
   */
  predicate ReducedOk(g: Grammar, rank: Rank, el: Symbol, reduces: bool, g3: Grammar)
    requires Valid(g, rank) && SymbolOk(g, el)
  {
    Intact(g3) && g3.root == g.root && Ranked(g3.rules, AppendRank(g, rank, el))
    && Solves(g3.rules, FStar(g, rank, el))
    && g3.size == (if reduces && g.variablesAdded then g.size else g.size + 1)
    && g3.variablesAdded == reduces
  }

  /**
   * Besides the grammar and I, the reductions change only the run count,
   * the device and the symbol to install.
   */
  predicate ReducedFieldsOk(g: Grammar, rank: Rank, el: Symbol, reduces: bool, g3: Grammar)
    requires Ranked(g.rules, rank) && (el.V? ==> el.id in g.rules)
  {
    g3.newSymbolToInstall == InstallAfter(g, reduces)
    && g3.output == Shown(g, rank, el) && g3.runCount == g.runCount + 1
    && g3.calls == g.calls && g3.input == g.input && g3.maxInputQueueLength == g.maxInputQueueLength
    && g3.eatDataPeriodicity == g.eatDataPeriodicity && g3.lastFixedSymbol == g.lastFixedSymbol
    && g3.useContextForOutput == g.useContextForOutput
  }

  lemma ReduceNoneOk(g: Grammar, rank: Rank, el: Symbol)
    requires Valid(g, rank) && SymbolOk(g, el)
    ensures var g3 := Pushed(g, rank, el).(variablesAdded := false);
      ReducedOk(g, rank, el, false, g3) && ReducedFieldsOk(g, rank, el, false, g3)
  {
    PushedIntact(g, rank, el);
    PushedRanked(g, rank, el);
    PushedSolves(g, rank, el);
  }

  lemma ReduceOnceOk(g: Grammar, rank: Rank, el: Symbol, o: Occurrence)
    requires Valid(g, rank) && SymbolOk(g, el) && ReducibleAt(g, el, o) && !g.variablesAdded
    ensures ReducedOk(g, rank, el, true, ReducedState(g, rank, el, o).(variablesAdded := true))
  {
    ReducedIntact(g, rank, el, o);
    ReplacedRanked(g, rank, el, o);
    ReplacedSolves(g, rank, el, o);
  }

  lemma ReduceMergeOk(g: Grammar, rank: Rank, el: Symbol, o: Occurrence)
    requires Valid(g, rank) && SymbolOk(g, el) && ReducibleAt(g, el, o) && g.variablesAdded
    ensures ReducedOk(g, rank, el, true, MergedState(g, rank, el, o))
  {
    MergedIntact(g, rank, el, o);
    MergedBodies(g, rank, el, o);
    MergedRanked(g, rank, el, o);
    MergedSolves(g, rank, el, o);
  }

  /** Reduction Rules 1 to 3 change only the grammar, I, the device, the count and the symbol to install. */
  lemma ReducedFieldsSpec(g: Grammar, rank: Rank, el: Symbol, o: Occurrence)
    requires Valid(g, rank) && SymbolOk(g, el) && ReducibleAt(g, el, o)
    ensures ReducedFieldsOk(g, rank, el, true, ReducedState(g, rank, el, o))
    ensures g.variablesAdded ==> ReducedFieldsOk(g, rank, el, true, MergedState(g, rank, el, o))
  {
  }

  /** The reductions never stop the program, and what they leave is as ReducedOk says. */
  lemma ReduceSpec(g: Grammar, rank: Rank, el: Symbol)
    requires Valid(g, rank) && SymbolOk(g, el)
    ensures Reduce(g, rank, el).Done?
    ensures ReducedOk(g, rank, el, Reduces(g, el), Reduce(g, rank, el).g)
    ensures ReducedFieldsOk(g, rank, el, Reduces(g, el), Reduce(g, rank, el).g)
  {
    if !Reduces(g, el) {
      ReduceNone(g, rank, el);
      ReduceNoneOk(g, rank, el);
    } else {
      var o := ReducedAt(g, el);
      ReducedFieldsSpec(g, rank, el, o);
      if !g.variablesAdded {
        ReduceOnce(g, rank, el);
        ReduceOnceOk(g, rank, el, o);
      } else {
        ReduceMerge(g, rank, el);
        ReduceMergeOk(g, rank, el, o);
      }
    }
  }

  /** The strings FStar gives: the root's extended by el's, every other old rule's as before. */
  lemma FStarValues(g: Grammar, rank: Rank, el: Symbol)
    requires Valid(g, rank) && SymbolOk(g, el)
    ensures var f, root := FStar(g, rank, el), g.root.value;
      root in f && f[root] == Text(g, rank) + ExpandSymbol(g, rank, el)
      && forall i :: i in g.rules && i != root ==> i in f && f[i] == Expansion(g.rules, rank, i)
  {
    NextIdFresh(g);
  }

  /** A grammar FStar solves stands for the old strings, the root's extended by el's. */
  lemma SolvedExpansions(g: Grammar, rank: Rank, el: Symbol, q: Rules, rank': Rank)
    requires Valid(g, rank) && SymbolOk(g, el)
    requires Ranked(q, rank') && Solves(q, FStar(g, rank, el)) && g.root.value in q
    ensures Expansion(q, rank', g.root.value) == Text(g, rank) + ExpandSymbol(g, rank, el)
    ensures forall i :: i in g.rules && i in q && i != g.root.value ==> Expansion(q, rank', i) == Expansion(g.rules, rank, i)
  {
    FStarValues(g, rank, el);
    ExpansionUnique(q, rank', FStar(g, rank, el));
  }

  /** The context calls of appendToRootRule: the encoding, then the installation, and nothing else changes. */
  lemma RecordedSpec(g: Grammar, el: Symbol)
    ensures var g' := Recorded(g, el);
      g'.calls == g.calls + (if g.useContextForOutput then [EncodeSymbol(SymbolCode(g, el))] else [])
                  + (if g.newSymbolToInstall != 0 then [InstallSymbol(g.newSymbolToInstall)] else [])
      && g'.newSymbolToInstall == 0
      && g' == g.(calls := g'.calls, newSymbolToInstall := 0)
  {
  }

  /** purge empties the grammar and keeps the invariant. */
  lemma PurgedSpec(g: Grammar, rank: Rank)
    requires QueueOk(g) && g.newSymbolToInstall == 0 && 0 in rank
    ensures var g' := Purged(g);
      Valid(g', rank) && Text(g', rank) == [] && g'.rules == map[0 := []] && g'.size == 0
  {
    var g' := Purged(g);
    assert Total(g'.rules, [0]) == 0 by { assert [0][..0] == []; }
  }

  /** appendToRootRule is the reductions, then the context calls, then the purge check. */
  lemma AppendUnfold(g: Grammar, rank: Rank, el: Symbol, g3: Grammar)
    requires g.root.Some? && g.root.value in g.rules && Ranked(g.rules, rank) && (el.V? ==> el.id in g.rules)
    requires IdsOk(g) && Reduce(g, rank, el) == Done(g3)
    ensures AppendToRootRuleOf(g, rank, el) == Done(Finished(Recorded(g3, el)))
  {
  }

  /** The grammar at the end of appendToRootRule, after the reductions left g3. */
  lemma FinishedGrammar(g: Grammar, rank: Rank, el: Symbol, reduces: bool, g3: Grammar)
    requires Valid(g, rank) && SymbolOk(g, el)
    requires ReducedOk(g, rank, el, reduces, g3) && ReducedFieldsOk(g, rank, el, reduces, g3)
    ensures var g', rank', purges := Finished(Recorded(g3, el)), AppendRank(g, rank, el),
                 g.size + 1 == MaxGrammarSize && !(reduces && g.variablesAdded);
      Valid(g', rank')
      && (purges ==> g'.rules == map[0 := []] && g'.size == 0 && g'.runCount == 1 && Text(g', rank') == [])
      && (g.size + 1 < MaxGrammarSize ==> !purges)
      && (!purges ==>
            Text(g', rank') == Text(g, rank) + ExpandSymbol(g, rank, el) && g'.runCount == g.runCount + 1
            && g'.size <= g.size + 1
            && forall i :: i in g.rules && i in g'.rules && i != g.root.value ==>
                 Expansion(g'.rules, rank', i) == Expansion(g.rules, rank, i))
  {
    if g3.size == MaxGrammarSize {
      FinishedPurged(g, rank, el, reduces, g3);
    } else {
      FinishedKept(g, rank, el, reduces, g3);
    }
  }

  /** FinishedGrammar when the grammar reached the size limit. */
  lemma FinishedPurged(g: Grammar, rank: Rank, el: Symbol, reduces: bool, g3: Grammar)
    requires Valid(g, rank) && SymbolOk(g, el)
    requires ReducedOk(g, rank, el, reduces, g3) && ReducedFieldsOk(g, rank, el, reduces, g3)
    requires g3.size == MaxGrammarSize
    ensures var g', rank' := Finished(Recorded(g3, el)), AppendRank(g, rank, el);
      Valid(g', rank') && g'.rules == map[0 := []] && g'.size == 0 && g'.runCount == 1 && Text(g', rank') == []
  {
    var rank' := AppendRank(g, rank, el);
    var g4 := Recorded(g3, el);
    RecordedSpec(g3, el);
    AppendRankFacts(g, rank, el);
    PurgedSpec(g4, rank');
  }

  /** FinishedGrammar when the grammar stays below the size limit. */
  lemma FinishedKept(g: Grammar, rank: Rank, el: Symbol, reduces: bool, g3: Grammar)
    requires Valid(g, rank) && SymbolOk(g, el)
    requires ReducedOk(g, rank, el, reduces, g3) && ReducedFieldsOk(g, rank, el, reduces, g3)
    requires g3.size != MaxGrammarSize
    ensures var g', rank' := Finished(Recorded(g3, el)), AppendRank(g, rank, el);
      Valid(g', rank')
      && Text(g', rank') == Text(g, rank) + ExpandSymbol(g, rank, el) && g'.runCount == g.runCount + 1
      && g'.size <= g.size + 1
      && forall i :: i in g.rules && i in g'.rules && i != g.root.value ==>
           Expansion(g'.rules, rank', i) == Expansion(g.rules, rank, i)
  {
    var rank' := AppendRank(g, rank, el);
    RecordedIntact(g3, el);
    SolvedExpansions(g, rank, el, g3.rules, rank');
  }

  /** The context calls leave the grammar itself as it was. */
  lemma RecordedIntact(g: Grammar, el: Symbol)
    requires Intact(g)
    ensures var g' := Recorded(g, el);
      Intact(g') && g'.newSymbolToInstall == 0
      && g'.rules == g.rules && g'.root == g.root && g'.size == g.size && g'.runCount == g.runCount
  {
    RecordedSpec(g, el);
  }

  /** The effects of the end of appendToRootRule outside the grammar. */
  lemma FinishedEffects(g: Grammar, rank: Rank, el: Symbol, reduces: bool, g3: Grammar)
    requires Valid(g, rank) && SymbolOk(g, el) && ReducedFieldsOk(g, rank, el, reduces, g3)
    ensures var g', install := Finished(Recorded(g3, el)), InstallAfter(g, reduces);
      g'.output == Shown(g, rank, el)
      && g'.calls == g.calls + (if g.useContextForOutput then [EncodeSymbol(SymbolCode(g, el))] else [])
                     + (if install != 0 then [InstallSymbol(install)] else [])
      && (install != 0 ==> reduces && g.available == [] && install == g.lastFixedSymbol + g.ruleCounter)
      && g'.newSymbolToInstall == 0 && g'.input == g.input && g'.maxInputQueueLength == g.maxInputQueueLength
      && g'.eatDataPeriodicity == g.eatDataPeriodicity && g'.lastFixedSymbol == g.lastFixedSymbol
      && g'.useContextForOutput == g.useContextForOutput
  {
    RecordedSpec(g3, el);
  }

  /** Whether appendToRootRule(el) ends by purging the grammar: it reached the size limit. */
  predicate PurgesAfter(g: Grammar, el: Symbol)
    requires g.root.Some? && g.root.value in g.rules
  {
    g.size + 1 == MaxGrammarSize && !(Reduces(g, el) && g.variablesAdded)
  }

  /**
   * appendToRootRule(el) never stops the program on a valid grammar,
   * keeps it valid, and makes its root stand for the data so far
   * followed by el's string, unless the grammar reached its size limit
   * and was purged; every other rule that survives keeps its string.
   */
  lemma AppendToRootRuleSpec(g: Grammar, rank: Rank, el: Symbol)
    requires Valid(g, rank) && SymbolOk(g, el)
    ensures AppendToRootRuleOf(g, rank, el).Done?
    ensures var g', rank' := AppendToRootRuleOf(g, rank, el).g, AppendRank(g, rank, el);
      Valid(g', rank')
      && (PurgesAfter(g, el) ==> g'.rules == map[0 := []] && g'.size == 0 && g'.runCount == 1 && Text(g', rank') == [])
      && (g.size + 1 < MaxGrammarSize ==> !PurgesAfter(g, el))
      && (!PurgesAfter(g, el) ==>
            Text(g', rank') == Text(g, rank) + ExpandSymbol(g, rank, el) && g'.runCount == g.runCount + 1
            && g'.size <= g.size + 1
            && forall i :: i in g.rules && i in g'.rules && i != g.root.value ==>
                 Expansion(g'.rules, rank', i) == Expansion(g.rules, rank, i))
  {
    ReduceSpec(g, rank, el);
    var g3 := Reduce(g, rank, el).g;
    AppendUnfold(g, rank, el, g3);
    FinishedGrammar(g, rank, el, Reduces(g, el), g3);
  }

  /** A valid grammar meets what appendToRootRule demands of its state. */
  lemma ValidAppendable(g: Grammar, rank: Rank, el: Symbol)
    requires Valid(g, rank) && SymbolOk(g, el)
    ensures g.root.Some? && g.root.value in g.rules && Ranked(g.rules, rank) && (el.V? ==> el.id in g.rules)
    ensures IdsOk(g)
  {
  }

  /**
   * The effects of appendToRootRule(el) outside the grammar: the device
   * receives el's string, the context first the code of el (when it is
   * used for output), then the symbol of a rule created with a never-used
   * id; the input queue is untouched.
   */
  lemma AppendToRootRuleEffects(g: Grammar, rank: Rank, el: Symbol)
    requires Valid(g, rank) && SymbolOk(g, el)
    ensures AppendToRootRuleOf(g, rank, el).Done?
    ensures var g', install := AppendToRootRuleOf(g, rank, el).g, InstallAfter(g, Reduces(g, el));
      g'.output == Shown(g, rank, el)
      && g'.calls == g.calls + (if g.useContextForOutput then [EncodeSymbol(SymbolCode(g, el))] else [])
                     + (if install != 0 then [InstallSymbol(install)] else [])
      && (install != 0 ==> Reduces(g, el) && g.available == [] && install == g.lastFixedSymbol + g.ruleCounter)
      && g'.newSymbolToInstall == 0 && g'.input == g.input && g'.maxInputQueueLength == g.maxInputQueueLength
      && g'.eatDataPeriodicity == g.eatDataPeriodicity && g'.lastFixedSymbol == g.lastFixedSymbol
      && g'.useContextForOutput == g.useContextForOutput
  {
    ReduceSpec(g, rank, el);
    var g3 := Reduce(g, rank, el).g;
    AppendUnfold(g, rank, el, g3);
    FinishedEffects(g, rank, el, Reduces(g, el), g3);
  }
}
