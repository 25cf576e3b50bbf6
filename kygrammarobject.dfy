/**
 * KYGrammar as an object: the rules, the rule list, the queue of free
 * ids, the input queue and the counters are fields that the methods
 * update in place.  Each method is proved to carry out the function of
 * KYGrammars or KYInput with the same name, so what is proved there
 * about the functions holds of the object.  The rank is a ghost field:
 * the witness that no rule refers to itself, which the proofs carry
 * along.
 */
module KYGrammarObject {
  import opened Wrappers
  import opened KYExpansion
  import opened KYGrammars
  import opened KYInput

  /** One symbol of a right side: its string, then the rest of the side. */
  lemma ExpandStep(rules: Rules, rank: Rank, body: seq<Symbol>, k: nat, b: nat)
    requires Ranked(rules, rank) && k < |body| && Below(rules, rank, body[k..], b)
    ensures Below(rules, rank, body[k + 1..], b)
    ensures body[k].V? ==> body[k].id in rules && body[k].id in rank && rank[body[k].id] < b
    ensures ExpandSeq(rules, rank, body[k..], b) ==
      (if body[k].T? then [body[k].value] else Expansion(rules, rank, body[k].id))
      + ExpandSeq(rules, rank, body[k + 1..], b)
  {
    BelowTail(rules, rank, body[k..], b);
    assert body[k..][1..] == body[k + 1..];
    assert body[k..][0] == body[k];
  }

  class KYGrammar {
    var rules: Rules
    var ruleSet: seq<RuleId>
    var root: Option<RuleId>
    var ruleCounter: nat
    var available: seq<RuleId>
    var runCount: nat
    var size: nat
    var variablesAdded: bool
    var input: seq<int>
    var maxInputQueueLength: nat
    var eatDataPeriodicity: nat
    var lastFixedSymbol: int
    var useContextForOutput: bool
    var newSymbolToInstall: int
    var calls: seq<ContextCall>
    var output: Option<seq<int>>
    ghost var rank: Rank

    ghost function State(): Grammar
      reads this`rules, this`ruleSet, this`root, this`ruleCounter, this`available, this`runCount, this`size,
        this`variablesAdded, this`input, this`maxInputQueueLength, this`eatDataPeriodicity, this`lastFixedSymbol,
        this`useContextForOutput, this`newSymbolToInstall, this`calls, this`output
    {
      Grammar(rules, ruleSet, root, ruleCounter, available, runCount, size, variablesAdded, input,
              maxInputQueueLength, eatDataPeriodicity, lastFixedSymbol, useContextForOutput,
              newSymbolToInstall, calls, output)
    }

    ghost predicate Valid()
      reads this
    {
      KYGrammars.Valid(State(), rank)
    }

    /** initKYGrammar followed by setContext and setOutputDevice: no rules, then the root rule. */
    constructor (lastFixed: int, useContext: bool, device: Option<seq<int>>)
      ensures State() == NewGrammar(lastFixed, useContext, device) && rank == map[0 := 0]
      ensures Valid()
    {
      rules, ruleSet, root, ruleCounter, available := map[], [], None, 0, [];
      runCount, size, variablesAdded := 1, 0, false;
      input, maxInputQueueLength, eatDataPeriodicity := [], 0, EatDataPeriodicity;
      lastFixedSymbol, useContextForOutput, newSymbolToInstall := lastFixed, useContext, 0;
      calls, output := [], device;
      rank := map[];
      new;
      var id := CreateRootRule();
    }

    /** ruleSet->append(rule) for a rule with the given id and right side. */
    method ListRule(id: RuleId, body: seq<Symbol>)
      modifies this`rules, this`ruleSet
      ensures State() == old(State()).(rules := old(rules)[id := body], ruleSet := old(ruleSet) + [id])
    {
      rules := rules[id := body];
      ruleSet := ruleSet + [id];
    }

    /** createRootRule: nothing when a root exists, else an empty rule numbered by the counter. */
    method CreateRootRule() returns (id: Option<RuleId>)
      modifies this`rules, this`root, this`rank, this`ruleCounter, this`ruleSet
      ensures State() == CreateRootRuleOf(old(State())).0 && id == CreateRootRuleOf(old(State())).1
      ensures rank == if old(root).Some? then old(rank) else old(rank)[old(ruleCounter) := 0]
    {
      if root.Some? {
        return None;
      }
      var counter := ruleCounter;
      root := Some(counter);
      ruleCounter := counter + 1;
      ListRule(counter, []);
      rank := rank[counter := 0];
      id := Some(counter);
    }

    /** The id createRule gives: the oldest freed one, or the counter, announced to the context. */
    method TakeId() returns (id: RuleId)
      modifies this`available, this`ruleCounter, this`newSymbolToInstall
      ensures id == NextId(old(State()))
      ensures State() == if old(available) == [] then
          old(State()).(ruleCounter := old(ruleCounter) + 1, newSymbolToInstall := old(lastFixedSymbol) + old(ruleCounter))
        else old(State()).(available := old(available)[1..])
    {
      if available == [] {
        id := ruleCounter;
        newSymbolToInstall := lastFixedSymbol + ruleCounter;
        ruleCounter := ruleCounter + 1;
      } else {
        id := available[0];
        available := available[1..];
      }
    }

    /** createRule: take an id and list the rule last. */
    method CreateRule(body: seq<Symbol>) returns (id: RuleId)
      modifies this`available, this`ruleCounter, this`newSymbolToInstall, this`rules, this`ruleSet
      ensures State() == CreateRuleOf(old(State()), body).0 && id == CreateRuleOf(old(State()), body).1
    {
      id := TakeId();
      ListRule(id, body);
    }

    /** findRule: walk the rule list for the id. */
    method FindRule(id: RuleId) returns (r: Option<seq<Symbol>>)
      requires forall i :: i in ruleSet ==> i in rules
      ensures r == FindRuleOf(State(), id)
      ensures r.Some? <==> id in ruleSet
    {
      var k := 0;
      while k < |ruleSet|
        invariant 0 <= k <= |ruleSet|
        invariant id !in ruleSet[..k]
      {
        if ruleSet[k] == id {
          return Some(rules[id]);
        }
        assert ruleSet[..k + 1] == ruleSet[..k] + [ruleSet[k]];
        k := k + 1;
      }
      assert ruleSet[..k] == ruleSet;
      return None;
    }

    // -------------------------------------------------------------------
    // Reduction rules
    // -------------------------------------------------------------------

    /** Replace the variable at the head of rule rid by the right side of its rule o, and unlist o. */
    method Inline(rid: RuleId, o: RuleId)
      requires rid in rules && |rules[rid]| >= 1 && o in rules
      modifies this`rules, this`ruleSet
      ensures State() == old(State()).(rules := old(rules)[rid := old(rules)[o] + old(rules)[rid][1..]] - {o},
                                       ruleSet := Without(old(ruleSet), o))
    {
      rules := rules[rid := rules[o] + rules[rid][1..]] - {o};
      ruleSet := Without(ruleSet, o);
    }

    /** Queue the id of a deleted rule for reuse; the grammar loses one symbol. */
    method FreeId(o: RuleId)
      modifies this`available, this`size
      ensures State() == old(State()).(available := old(available) + [o], size := if old(size) == 0 then SizeMax else old(size) - 1)
    {
      available := available + [o];
      size := if size == 0 then SizeMax else size - 1;
    }

    /** reductionRule1(rid): FATAL when rid starts with a terminal. */
    method ReductionRule1(rid: RuleId) returns (fatal: bool)
      requires rid in rules && |rules[rid]| >= 1 && (rules[rid][0].V? ==> rules[rid][0].id in rules)
      modifies this`rules, this`ruleSet, this`available, this`size
      ensures fatal <==> Reduction1Of(old(State()), rid).Fatal?
      ensures !fatal ==> State() == Reduction1Of(old(State()), rid).g
    {
      if rules[rid][0].T? {
        return true;
      }
      var o := rules[rid][0].id;
      Inline(rid, o);
      FreeId(o);
      return false;
    }

    /** Set a right side. */
    method SetBody(id: RuleId, body: seq<Symbol>)
      modifies this`rules
      ensures State() == old(State()).(rules := old(rules)[id := body])
    {
      rules := rules[id := body];
    }

    /** reductionRule2(p): both copies of the pair in the root become a new rule's variable. */
    method ReductionRule2(p: nat) returns (m: RuleId)
      requires root.Some? && root.value in rules && p + 4 <= |rules[root.value]|
      requires NextId(State()) !in rules
      modifies this`available, this`ruleCounter, this`newSymbolToInstall, this`rules, this`ruleSet
      ensures (State(), m) == Reduction2Of(old(State()), p)
    {
      var rt := root.value;
      var r := rules[rt];
      var n := |r|;
      m := CreateRule([r[p], r[p + 1]]);
      SetBody(rt, r[..p] + [V(m)] + r[p + 2..n - 2] + [V(m)]);
    }

    /** reductionRule3(rr, p): the pair in rule rr and at the end of the root become a new rule's variable. */
    method ReductionRule3(rr: RuleId, p: nat) returns (m: RuleId)
      requires root.Some? && root.value in rules && |rules[root.value]| >= 2
      requires rr in rules && p + 1 < |rules[rr]|
      requires NextId(State()) !in rules
      modifies this`available, this`ruleCounter, this`newSymbolToInstall, this`rules, this`ruleSet
      ensures (State(), m) == Reduction3Of(old(State()), rr, p)
    {
      var rt := root.value;
      var r := rules[rt];
      var b := rules[rr];
      m := CreateRule([b[p], b[p + 1]]);
      SetBody(rr, b[..p] + [V(m)] + b[p + 2..]);
      SetBody(rt, r[..|r| - 2] + [V(m)]);
    }

    // -------------------------------------------------------------------
    // appendToRootRule
    // -------------------------------------------------------------------

    /** The string of an element: the terminal itself, or the rule's reconstruction. */
    method SymbolString(el: Symbol) returns (s: seq<int>)
      requires Ranked(rules, rank) && (el.V? ==> el.id in rules)
      ensures s == ExpandSymbol(State(), rank, el)
    {
      if el.T? {
        s := [el.value];
      } else {
        s := ReconstructRule(el.id);
      }
    }

    /** The decoder's device receives the element's string. */
    method Show(el: Symbol)
      requires Ranked(rules, rank) && (el.V? ==> el.id in rules)
      modifies this`output
      ensures State() == old(State()).(output := Shown(old(State()), rank, el))
    {
      if output.Some? {
        var s := SymbolString(el);
        output := Some(output.value + s);
      }
    }

    /** runCount++, size++ and RIGHT_SIDE_APPEND of the element to the root. */
    method CountAndAppend(el: Symbol)
      requires root.Some? && root.value in rules
      modifies this`runCount, this`size, this`rules
      ensures State() == old(State()).(runCount := old(runCount) + 1, size := old(size) + 1,
                                       rules := old(rules)[old(root).value := old(rules)[old(root).value] + [el]])
    {
      runCount := runCount + 1;
      size := size + 1;
      rules := rules[root.value := rules[root.value] + [el]];
    }

    /** The first half of appendToRootRule. */
    method Push(el: Symbol)
      requires root.Some? && root.value in rules && Ranked(rules, rank) && (el.V? ==> el.id in rules)
      modifies this`output, this`runCount, this`size, this`rules
      ensures State() == Pushed(old(State()), rank, el)
    {
      Show(el);
      CountAndAppend(el);
    }

    method SetAdded(b: bool)
      modifies this`variablesAdded
      ensures State() == old(State()).(variablesAdded := b)
    {
      variablesAdded := b;
    }

    /** Set I, or apply Reduction Rule 1 to the new rule m when I was already set. */
    method SettleAdded(m: RuleId, wasAdded: bool) returns (fatal: bool)
      requires m in rules && |rules[m]| >= 1 && (rules[m][0].V? ==> rules[m][0].id in rules)
      modifies this`rules, this`ruleSet, this`available, this`size, this`variablesAdded
      ensures fatal <==> KYGrammars.AfterReduction((old(State()), m), wasAdded).Fatal?
      ensures !fatal ==> State() == KYGrammars.AfterReduction((old(State()), m), wasAdded).g
    {
      if !wasAdded {
        SetAdded(true);
        return false;
      }
      fatal := ReductionRule1(m);
    }

    /** Reduction Rule 2 at p, then Reduction Rule 1 on the new rule when I was set. */
    method Reduce2(p: nat, wasAdded: bool) returns (fatal: bool)
      requires root.Some? && root.value in rules && p + 4 <= |rules[root.value]|
      requires NextId(State()) !in rules
      requires forall i :: i in rules ==> forall x :: x in rules[i] && x.V? ==> x.id in rules
      modifies this`rules, this`ruleSet, this`available, this`size, this`variablesAdded,
               this`ruleCounter, this`newSymbolToInstall
      ensures fatal <==> KYGrammars.AfterReduction(Reduction2Of(old(State()), p), wasAdded).Fatal?
      ensures !fatal ==> State() == KYGrammars.AfterReduction(Reduction2Of(old(State()), p), wasAdded).g
    {
      var m := ReductionRule2(p);
      fatal := SettleAdded(m, wasAdded);
    }

    /** Reduction Rule 3 at p of rule rr, then Reduction Rule 1 on the new rule when I was set. */
    method Reduce3(rr: RuleId, p: nat, wasAdded: bool) returns (fatal: bool)
      requires root.Some? && root.value in rules && |rules[root.value]| >= 2
      requires rr in rules && p + 1 < |rules[rr]|
      requires NextId(State()) !in rules
      requires forall i :: i in rules ==> forall x :: x in rules[i] && x.V? ==> x.id in rules
      modifies this`rules, this`ruleSet, this`available, this`size, this`variablesAdded,
               this`ruleCounter, this`newSymbolToInstall
      ensures fatal <==> KYGrammars.AfterReduction(Reduction3Of(old(State()), rr, p), wasAdded).Fatal?
      ensures !fatal ==> State() == KYGrammars.AfterReduction(Reduction3Of(old(State()), rr, p), wasAdded).g
    {
      var m := ReductionRule3(rr, p);
      fatal := SettleAdded(m, wasAdded);
    }

    /** Push the element onto the root, then apply the reduction its new digram calls for. */
    method PushAndReduce(el: Symbol) returns (fatal: bool)
      requires root.Some? && root.value in rules && Ranked(rules, rank) && (el.V? ==> el.id in rules)
      requires IdsOk(State())
      modifies this`output, this`runCount, this`size, this`rules, this`ruleSet, this`available,
               this`ruleCounter, this`newSymbolToInstall, this`variablesAdded
      ensures fatal <==> Reduce(old(State()), rank, el).Fatal?
      ensures !fatal ==> State() == Reduce(old(State()), rank, el).g
    {
      ghost var g0 := State();
      var r := rules[root.value];
      var wasAdded := variablesAdded;
      var found := if r == [] then None else FindDigramIn(rules, ruleSet, r[|r| - 1], el);
      Push(el);
      fatal := ReducePushed(g0, el, |r|, found, wasAdded);
    }

    /**
     * The reductions after el was pushed onto the root of g0, whose length
     * was n; found is the occurrence of the new digram in g0.
     */
    method ReducePushed(ghost g0: Grammar, el: Symbol, n: nat, found: Option<Occurrence>, wasAdded: bool)
      returns (fatal: bool)
      requires g0.root.Some? && g0.root.value in g0.rules && Ranked(g0.rules, rank) && (el.V? ==> el.id in g0.rules)
      requires IdsOk(g0) && wasAdded == g0.variablesAdded
      requires var r := g0.rules[g0.root.value];
        n == |r| && (n > 0 ==> found == FindDigram(g0, r[|r| - 1], el))
      requires State() == Pushed(g0, rank, el)
      modifies this`rules, this`ruleSet, this`available, this`size, this`variablesAdded,
               this`ruleCounter, this`newSymbolToInstall
      ensures fatal <==> Reduce(g0, rank, el).Fatal?
      ensures !fatal ==> State() == Reduce(g0, rank, el).g
    {
      if n == 0 {
        return false;
      }
      if found.None? || (found.value.rule == root.value && found.value.pos + 2 == n) {
        SetAdded(false);
        return false;
      }
      fatal := ReduceFound(g0, el, found.value, wasAdded);
    }

    /**
     * The reduction for the digram just formed at the end of the root of
     * g0 (now pushed), which also occurs at o.
     */
    method ReduceFound(ghost g0: Grammar, el: Symbol, o: Occurrence, wasAdded: bool) returns (fatal: bool)
      requires g0.root.Some? && g0.root.value in g0.rules && Ranked(g0.rules, rank) && (el.V? ==> el.id in g0.rules)
      requires IdsOk(g0) && g0.rules[g0.root.value] != [] && wasAdded == g0.variablesAdded
      requires var r := g0.rules[g0.root.value];
        FindDigram(g0, r[|r| - 1], el) == Some(o) && !(o.rule == g0.root.value && o.pos + 2 == |r|)
      requires State() == Pushed(g0, rank, el)
      modifies this`rules, this`ruleSet, this`available, this`size, this`variablesAdded,
               this`ruleCounter, this`newSymbolToInstall
      ensures fatal <==> Reduce(g0, rank, el).Fatal?
      ensures !fatal ==> State() == Reduce(g0, rank, el).g
    {
      NextIdFresh(State());
      if o.rule == root.value {
        fatal := Reduce2(o.pos, wasAdded);
      } else if o.pos > 0 || o.pos + 2 < |rules[o.rule]| {
        fatal := Reduce3(o.rule, o.pos, wasAdded);
      } else {
        SetAdded(false);
        fatal := false;
      }
    }

    /** The context calls: encodeSymbol for the element, then installSymbol for a new variable. */
    method Record(el: Symbol)
      modifies this`calls, this`newSymbolToInstall
      ensures State() == Recorded(old(State()), el)
    {
      var code := match el case T(v) => v % 256 case V(id) => lastFixedSymbol + id;
      if useContextForOutput {
        calls := calls + [EncodeSymbol(code)];
      }
      if newSymbolToInstall != 0 {
        calls := calls + [InstallSymbol(newSymbolToInstall)];
        newSymbolToInstall := 0;
      }
    }

    /**
     * appendToRootRule(el): append el to the root rule, restore digram
     * uniqueness and rule utility, tell the context, and purge a grammar
     * that reached MaxGrammarSize.
     */
    method AppendToRootRule(el: Symbol)
      requires Valid() && SymbolOk(State(), el)
      modifies this
      ensures AppendToRootRuleOf(old(State()), old(rank), el) == Done(State())
      ensures rank == AppendRank(old(State()), old(rank), el)
      ensures Valid()
    {
      ghost var g0, r0 := State(), rank;
      AppendToRootRuleSpec(g0, r0, el);
      ValidAppendable(g0, r0, el);
      ReduceAndRecord(el);
      rank := AppendRank(g0, r0, el);
    }

    /** The steps of appendToRootRule, on a grammar where they do not fail. */
    method ReduceAndRecord(el: Symbol)
      requires root.Some? && root.value in rules && Ranked(rules, rank) && (el.V? ==> el.id in rules)
      requires IdsOk(State()) && Reduce(State(), rank, el).Done?
      modifies this
      ensures State() == AppendToRootRuleOf(old(State()), old(rank), el).g
    {
      var fatal := PushAndReduce(el);
      if fatal {
        assert false;
      }
      Record(el);
      if size == MaxGrammarSize {
        Purge();
      }
    }

    /** Delete the rule list. */
    method ClearRules()
      modifies this`rules, this`ruleSet, this`rank
      ensures State() == old(State()).(rules := map[], ruleSet := [])
      ensures rank == map[]
    {
      rules, ruleSet := map[], [];
      rank := map[];
    }

    /** Forget the root and restart the numbering of rules. */
    method ClearRoot()
      modifies this`root, this`ruleCounter
      ensures State() == old(State()).(root := None, ruleCounter := 0)
    {
      root, ruleCounter := None, 0;
    }

    /** The fields purge resets besides the rules. */
    method ResetCounters()
      modifies this`runCount, this`variablesAdded, this`size, this`available
      ensures State() == old(State()).(runCount := 1, variablesAdded := false, size := 0, available := [])
    {
      runCount, variablesAdded, size := 1, false, 0;
      available := [];
    }

    /** purge: drop every rule and start again from an empty root rule 0. */
    method Purge()
      modifies this`rules, this`ruleSet, this`root, this`ruleCounter, this`rank, this`runCount,
        this`variablesAdded, this`size, this`available
      ensures State() == Purged(old(State())) && rank == map[0 := 0]
    {
      ClearRules();
      ClearRoot();
      var id := CreateRootRule();
      ResetCounters();
    }

    /**
     * reconstructRule(rule, device): the terminals the rule stands for,
     * in order, which the code writes to the device.
     */
    method ReconstructRule(id: RuleId) returns (s: seq<int>)
      requires Ranked(rules, rank) && id in rules
      ensures s == Expansion(rules, rank, id)
      decreases rank[id]
    {
      var body := rules[id];
      ghost var b := rank[id];
      s := [];
      var k := 0;
      assert body[0..] == body;
      while k < |body|
        invariant 0 <= k <= |body|
        invariant Below(rules, rank, body[k..], b)
        invariant s + ExpandSeq(rules, rank, body[k..], b) == Expansion(rules, rank, id)
      {
        ExpandStep(rules, rank, body, k, b);
        var t;
        if body[k].T? {
          t := [body[k].value];
        } else {
          t := ReconstructRule(body[k].id);
        }
        s := s + t;
        k := k + 1;
      }
    }

    /** getRuleLength: the number of terminals the rule stands for. */
    method GetRuleLength(id: RuleId) returns (n: nat)
      requires Ranked(rules, rank) && id in rules
      ensures n == |Expansion(rules, rank, id)|
      decreases rank[id]
    {
      var body := rules[id];
      n := 0;
      var k := 0;
      assert body[0..] == body;
      while k < |body|
        invariant 0 <= k <= |body|
        invariant Below(rules, rank, body[k..], rank[id])
        invariant n + |ExpandSeq(rules, rank, body[k..], rank[id])| == |Expansion(rules, rank, id)|
      {
        ExpandStep(rules, rank, body, k, rank[id]);
        if body[k].T? {
          n := n + 1;
        } else {
          var t := GetRuleLength(body[k].id);
          n := n + t;
        }
        k := k + 1;
      }
    }

    // -------------------------------------------------------------------
    // The input queue
    // -------------------------------------------------------------------

    /**
     * ruleMatchesInput for one listed rule: whether the rule's string is a
     * prefix of the input (complete) or the input a proper prefix of the
     * rule's string (partial); the root never matches.
     */
    method MatchInput(i: RuleId) returns (complete: bool, partial: bool, n: nat)
      requires Ranked(rules, rank)
      ensures complete == MatchesInput(State(), rank, i) && partial == ExtendsInput(State(), rank, i)
      ensures complete ==> n == |Expansion(rules, rank, i)|
    {
      if i !in rules || Some(i) == root {
        return false, false, 0;
      }
      var e := ReconstructRule(i);
      n := |e|;
      complete := n <= |input| && input[..n] == e;
      partial := |input| < n && e[..|input|] == input;
    }

    /** The forced filter of eatData: the longest rule whose string begins the input, in rule-list order. */
    method LongestMatchingRule() returns (best: Option<RuleId>, len: nat)
      requires Ranked(rules, rank)
      ensures (best, len) == LongestMatch(State(), rank)
    {
      best, len := None, 1;
      var k := 0;
      while k < |ruleSet|
        invariant 0 <= k <= |ruleSet|
        invariant best.Some? ==> MatchesInput(State(), rank, best.value) && len == |Expansion(rules, rank, best.value)|
        invariant best.None? ==> len == 1
        invariant BestMatchFrom(State(), rank, ruleSet[k..], best, len) == LongestMatch(State(), rank)
      {
        var complete, partial, n := MatchInput(ruleSet[k]);
        assert ruleSet[k..][1..] == ruleSet[k + 1..];
        if complete && n > len {
          best, len := Some(ruleSet[k]), n;
        }
        k := k + 1;
      }
    }

    /** Whether a listed rule's string extends the input: the non-forced eatData then waits for more input. */
    method IsWaiting() returns (w: bool)
      requires Ranked(rules, rank)
      ensures w == Waiting(State(), rank)
    {
      w := false;
      var k := 0;
      while k < |ruleSet|
        invariant 0 <= k <= |ruleSet|
        invariant w <==> exists j :: 0 <= j < k && ExtendsInput(State(), rank, ruleSet[j])
      {
        var complete, partial, n := MatchInput(ruleSet[k]);
        w := w || partial;
        k := k + 1;
      }
    }

    /** Delete the first k items of the input queue. */
    method Dequeue(k: nat)
      requires k <= |input|
      modifies this`input
      ensures State() == old(State()).(input := old(input)[k..])
    {
      input := input[k..];
    }

    /**
     * One step of eatData: the longest matching rule's variable, or else
     * the head of the queue, leaves the queue and is appended to the root.
     */
    method EatStep()
      requires Valid() && input != []
      modifies this
      ensures EatStepOf(old(State()), old(rank)) == Done(State()) && rank == StepRank(old(State()), old(rank))
      ensures Valid()
    {
      ghost var g0, r0 := State(), rank;
      EatenSpec(g0, r0);
      DequeuedValid(g0, r0);
      var best, len := LongestMatchingRule();
      var el := if best.Some? then V(best.value) else T(input[0]);
      assert el == Eaten(g0, r0) && len == EatenLength(g0, r0);
      Dequeue(len);
      ghost var g1 := State();
      assert g1 == Dequeued(g0, r0);
      AppendToRootRule(el);
    }

    /**
     * eatData(forced): forced, one step; otherwise steps until the queue
     * is empty or some rule's string extends what remains of it.
     */
    method EatData(forced: bool)
      requires Valid() && (forced ==> input != [])
      modifies this
      ensures forced ==> EatStepOf(old(State()), old(rank)) == Done(State()) && rank == StepRank(old(State()), old(rank))
      ensures !forced ==> (State(), rank) == EatDataOf(old(State()), old(rank))
      ensures Valid()
    {
      if forced {
        EatStep();
        return;
      }
      ghost var g0, r0 := State(), rank;
      while true
        invariant Valid() && EatDataOf(State(), rank) == EatDataOf(g0, r0)
        decreases |input|
      {
        if input == [] {
          return;
        }
        var w := IsWaiting();
        if w {
          return;
        }
        ghost var g1, r1 := State(), rank;
        EatStepSpec(g1, r1);
        EatStep();
      }
    }

    /** Enqueue a value: INCREASE_INPUT_QUEUE_LENGTH and one step nearer the next eatData. */
    method Enqueue(value: int)
      requires eatDataPeriodicity >= 1
      modifies this`input, this`maxInputQueueLength, this`eatDataPeriodicity
      ensures State() == Enqueued(old(State()), value)
    {
      input := input + [value];
      if |input| > maxInputQueueLength {
        maxInputQueueLength := |input|;
      }
      eatDataPeriodicity := eatDataPeriodicity - 1;
    }

    method ResetPeriodicity()
      modifies this`eatDataPeriodicity
      ensures State() == old(State()).(eatDataPeriodicity := EatDataPeriodicity)
    {
      eatDataPeriodicity := EatDataPeriodicity;
    }

    /** append(value): enqueue the value; every EatDataPeriodicity values, eatData. */
    method Append(value: int)
      requires Valid()
      modifies this
      ensures (State(), rank) == AppendOf(old(State()), old(rank), value)
      ensures Valid()
    {
      ghost var g0, r0 := State(), rank;
      EnqueuedValid(g0, r0, value);
      Enqueue(value);
      if eatDataPeriodicity == 0 {
        ResetPeriodicity();
        EatData(false);
      }
    }

    /** flush: forced eatData until the input queue is empty. */
    method Flush()
      requires Valid()
      modifies this
      ensures (State(), rank) == FlushOf(old(State()), old(rank))
      ensures Valid()
    {
      ghost var g0, r0 := State(), rank;
      while input != []
        invariant Valid() && FlushOf(State(), rank) == FlushOf(g0, r0)
        decreases |input|
      {
        ghost var g1, r1 := State(), rank;
        EatStepSpec(g1, r1);
        EatData(true);
      }
    }
  }
}
