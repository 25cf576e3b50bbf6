/**
 * The input side of KYGrammar on values: the input queue that append
 * fills, the rule matching of eatData, flush, and getRuleLength.
 *
 * The forced mode of eatData tests every rule of the rule list against
 * the queue.  The unforced mode draws its candidates from the digram
 * index instead: the neighbour list of the first queued terminal and
 * the rules that list names as represented by its digrams, kept in a
 * cache between calls.  The model tests every non-root rule in both
 * modes.  That is the unforced mode's outcome only where the index
 * names every rule that could match; KYDigramTrace shows an input on
 * which the index loses a pair, so the two can part ways.
 */
module KYInput {
  import opened Wrappers
  import opened KYExpansion
  import opened KYGrammars

  /** a is a suffix of b. */
  predicate IsSuffix(a: seq<int>, b: seq<int>)
  {
    |a| <= |b| && b[|b| - |a|..] == a
  }

  /** A complete match of ruleMatchesInput: rule i, not the root, stands for a prefix of the queue. */
  predicate MatchesInput(g: Grammar, rank: Rank, i: RuleId)
    requires Ranked(g.rules, rank)
  {
    i in g.rules && Some(i) != g.root
    && var e := Expansion(g.rules, rank, i);
       |e| <= |g.input| && g.input[..|e|] == e
  }

  /** An incomplete match: rule i, not the root, stands for the whole queue and more. */
  predicate ExtendsInput(g: Grammar, rank: Rank, i: RuleId)
    requires Ranked(g.rules, rank)
  {
    i in g.rules && Some(i) != g.root
    && var e := Expansion(g.rules, rank, i);
       |g.input| < |e| && e[..|g.input|] == g.input
  }

  /** eatData's canEnd: some rule may still match once more data arrives. */
  predicate Waiting(g: Grammar, rank: Rank)
    requires Ranked(g.rules, rank)
  {
    exists i :: i in g.ruleSet && ExtendsInput(g, rank, i)
  }

  lemma SuffixDrop(t: seq<int>, s: seq<int>, k: nat)
    requires k <= |s|
    ensures IsSuffix([] + s[k..], t + s)
  {
    assert (t + s)[|t| + k..] == s[k..];
    assert [] + s[k..] == s[k..];
  }

  lemma DropIsSuffix(s: seq<int>, k: nat)
    requires k <= |s|
    ensures IsSuffix(s[k..], s)
  {
  }

  lemma SuffixTrans(a: seq<int>, b: seq<int>, c: seq<int>)
    requires IsSuffix(a, b) && IsSuffix(b, c)
    ensures IsSuffix(a, c)
  {
    assert c[|c| - |a|..] == c[|c| - |b|..][|b| - |a|..];
  }

  lemma SuffixSplit(t: seq<int>, s: seq<int>, k: nat)
    requires k <= |s|
    ensures (t + s[..k]) + s[k..] == t + s
    ensures IsSuffix((t + s[..k]) + s[k..], t + s)
  {
    assert s == s[..k] + s[k..];
  }

  // ---------------------------------------------------------------------
  // Lengths of expansions
  // ---------------------------------------------------------------------

  /** Every symbol of a right side stands for at least one terminal. */
  lemma {:induction false} ExpandSeqCovers(g: Grammar, rank: Rank, s: seq<Symbol>, b: nat)
    requires Valid(g, rank) && Below(g.rules, rank, s, b) && V(0) !in s
    ensures |ExpandSeq(g.rules, rank, s, b)| >= |s|
    decreases b, |s|
  {
    if s != [] {
      BelowTail(g.rules, rank, s, b);
      assert V(0) !in s[1..] by {
        assert forall x :: x in s[1..] ==> x in s;
      }
      ExpandSeqCovers(g, rank, s[1..], b);
      match s[0]
      case T(_) =>
      case V(j) =>
        assert j != 0 by { assert s[0] in s; }
        ExpandSeqCovers(g, rank, g.rules[j], rank[j]);
    }
  }

  /** A rule other than the root stands for at least two terminals. */
  lemma ExpansionAtLeastTwo(g: Grammar, rank: Rank, i: RuleId)
    requires Valid(g, rank) && i in g.rules && i != 0
    ensures |Expansion(g.rules, rank, i)| >= 2
  {
    ExpandSeqCovers(g, rank, g.rules[i], rank[i]);
  }

  /**
   * getRuleLength: the number of terminals a rule stands for, summed
   * over its right side, recursing into variables.
   */
  function SeqLength(rules: Rules, rank: Rank, s: seq<Symbol>, b: nat): (n: nat)
    requires Ranked(rules, rank) && Below(rules, rank, s, b)
    ensures n == |ExpandSeq(rules, rank, s, b)|
    decreases b, |s|
  {
    if s == [] then 0
    else
      BelowTail(rules, rank, s, b);
      (match s[0]
       case T(_) => 1
       case V(j) => SeqLength(rules, rank, rules[j], rank[j]))
      + SeqLength(rules, rank, s[1..], b)
  }

  function RuleLength(rules: Rules, rank: Rank, id: RuleId): (n: nat)
    requires Ranked(rules, rank) && id in rules
    ensures n == |Expansion(rules, rank, id)|
  {
    SeqLength(rules, rank, rules[id], rank[id])
  }

  // ---------------------------------------------------------------------
  // Choosing what to append
  // ---------------------------------------------------------------------

  /**
   * The scan of eatData over the rule list: best and len are the best
   * complete match so far and its length (no rule and 1 at the start);
   * a rule replaces it only when it is strictly longer, so the first of
   * equally long matches wins.
   */
  function BestMatchFrom(g: Grammar, rank: Rank, ids: seq<RuleId>, best: Option<RuleId>, len: nat): (r: (Option<RuleId>, nat))
    requires Ranked(g.rules, rank)
    requires best.Some? ==> MatchesInput(g, rank, best.value) && len == |Expansion(g.rules, rank, best.value)|
    requires best.None? ==> len == 1
    ensures r.0.Some? ==> MatchesInput(g, rank, r.0.value) && r.1 == |Expansion(g.rules, rank, r.0.value)|
    ensures r.0.Some? ==> r.0 == best || r.0.value in ids
    ensures r.0.None? ==> best.None? && r.1 == 1
    ensures len <= r.1
    ensures forall i :: i in ids && MatchesInput(g, rank, i) ==> |Expansion(g.rules, rank, i)| <= r.1
    decreases |ids|
  {
    if ids == [] then (best, len)
    else
      var i := ids[0];
      if MatchesInput(g, rank, i) && |Expansion(g.rules, rank, i)| > len then
        BestMatchFrom(g, rank, ids[1..], Some(i), |Expansion(g.rules, rank, i)|)
      else
        BestMatchFrom(g, rank, ids[1..], best, len)
  }

  /** The longest rule that stands for a prefix of the queue, and its length (1 when there is none). */
  function LongestMatch(g: Grammar, rank: Rank): (Option<RuleId>, nat)
    requires Ranked(g.rules, rank)
  {
    BestMatchFrom(g, rank, g.ruleSet, None, 1)
  }

  /**
   * On a valid grammar the scan finds a longest complete match if there
   * is any, and reports none only when no rule matches.
   */
  lemma LongestMatchSpec(g: Grammar, rank: Rank)
    requires Valid(g, rank)
    ensures var (best, len) := LongestMatch(g, rank);
      (best.Some? ==>
         MatchesInput(g, rank, best.value) && len == |Expansion(g.rules, rank, best.value)| && len >= 2
         && forall i :: i in g.rules && MatchesInput(g, rank, i) ==> |Expansion(g.rules, rank, i)| <= len)
      && (best.None? ==> len == 1 && forall i :: i in g.rules ==> !MatchesInput(g, rank, i))
  {
    var (best, len) := LongestMatch(g, rank);
    if best.Some? {
      ExpansionAtLeastTwo(g, rank, best.value);
    } else {
      forall i | i in g.rules ensures !MatchesInput(g, rank, i) {
        if MatchesInput(g, rank, i) {
          ExpansionAtLeastTwo(g, rank, i);
        }
      }
    }
  }

  /** The symbol eatData appends: the chosen rule, or the head of the queue. */
  function Eaten(g: Grammar, rank: Rank): Symbol
    requires Ranked(g.rules, rank) && g.input != []
  {
    match LongestMatch(g, rank).0
    case Some(i) => V(i)
    case None => T(g.input[0])
  }

  /** How many queued terminals it stands for. */
  function EatenLength(g: Grammar, rank: Rank): (k: nat)
    requires Ranked(g.rules, rank) && g.input != []
    ensures 1 <= k <= |g.input|
  {
    LongestMatch(g, rank).1
  }

  /** The grammar after the chosen terminals are removed from the queue. */
  function Dequeued(g: Grammar, rank: Rank): Grammar
    requires Ranked(g.rules, rank) && g.input != []
  {
    g.(input := g.input[EatenLength(g, rank)..])
  }

  /** One round of eatData: dequeue the chosen terminals and append their symbol to the root. */
  function EatStepOf(g: Grammar, rank: Rank): Outcome
    requires Valid(g, rank) && g.input != []
  {
    AppendToRootRuleOf(Dequeued(g, rank), rank, Eaten(g, rank))
  }

  function StepRank(g: Grammar, rank: Rank): Rank
    requires Valid(g, rank) && g.input != []
  {
    AppendRank(Dequeued(g, rank), rank, Eaten(g, rank))
  }

  /** The symbol appended stands for exactly the terminals removed. */
  lemma EatenSpec(g: Grammar, rank: Rank)
    requires Valid(g, rank) && g.input != []
    ensures SymbolOk(g, Eaten(g, rank))
    ensures ExpandSymbol(g, rank, Eaten(g, rank)) == g.input[..EatenLength(g, rank)]
  {
  }

  lemma DequeuedValid(g: Grammar, rank: Rank)
    requires Valid(g, rank) && g.input != []
    ensures Valid(Dequeued(g, rank), rank)
    ensures Text(Dequeued(g, rank), rank) == Text(g, rank)
  {
    var d := Dequeued(g, rank);
    assert QueueOk(d);
    assert Intact(d) by {
      assert RuleSetOk(d) && IdsOk(d) && NoRootRef(d) && BodiesOk(d) && SizeOk(d) && RepeatOk(d);
    }
  }

  /**
   * One round of eatData keeps the grammar valid, consumes at least one
   * queued terminal and leaves the periodicity count alone.
   */
  lemma EatStepSpec(g: Grammar, rank: Rank)
    requires Valid(g, rank) && g.input != []
    ensures EatStepOf(g, rank).Done?
    ensures var g', k := EatStepOf(g, rank).g, EatenLength(g, rank);
      Valid(g', StepRank(g, rank)) && 1 <= k <= |g.input| && g'.input == g.input[k..]
      && g'.eatDataPeriodicity == g.eatDataPeriodicity
  {
    EatenSpec(g, rank);
    DequeuedValid(g, rank);
    AppendToRootRuleSpec(Dequeued(g, rank), rank, Eaten(g, rank));
    AppendToRootRuleEffects(Dequeued(g, rank), rank, Eaten(g, rank));
  }

  /**
   * After one round the root stands for the data so far followed by the
   * consumed terminals, unless the grammar was purged; either way the
   * root's string followed by the queue is what it was, or a suffix of it.
   */
  lemma EatStepText(g: Grammar, rank: Rank)
    requires Valid(g, rank) && g.input != []
    requires EatStepOf(g, rank).Done? && Valid(EatStepOf(g, rank).g, StepRank(g, rank))
    requires EatStepOf(g, rank).g.input == g.input[EatenLength(g, rank)..]
    ensures var g', rank', k := EatStepOf(g, rank).g, StepRank(g, rank), EatenLength(g, rank);
      (g.size + 1 < MaxGrammarSize ==>
         Text(g', rank') == Text(g, rank) + g.input[..k] && g'.size <= g.size + 1)
      && IsSuffix(Text(g', rank') + g'.input, Text(g, rank) + g.input)
  {
    var d, el, k := Dequeued(g, rank), Eaten(g, rank), EatenLength(g, rank);
    EatenSpec(g, rank);
    DequeuedValid(g, rank);
    AppendToRootRuleSpec(d, rank, el);
    var g', rank' := EatStepOf(g, rank).g, StepRank(g, rank);
    var t, t' := Text(g, rank), Text(g', rank');
    if PurgesAfter(d, el) {
      assert t' == [];
      SuffixDrop(t, g.input, k);
    } else {
      assert t' == t + g.input[..k];
      SuffixSplit(t, g.input, k);
    }
  }

  // ---------------------------------------------------------------------
  // eatData, flush, append
  // ---------------------------------------------------------------------

  /**
   * eatData(): append matches to the root while the queue is not empty
   * and no rule stands for more than the queue.  It stops with an empty
   * queue or waiting for more data, with a valid grammar; nothing is
   * lost while the grammar stays below its size limit.
   */
  function EatDataOf(g: Grammar, rank: Rank): (r: (Grammar, Rank))
    requires Valid(g, rank)
    ensures Valid(r.0, r.1)
    ensures r.0.input == [] || Waiting(r.0, r.1)
    ensures IsSuffix(r.0.input, g.input) && r.0.eatDataPeriodicity == g.eatDataPeriodicity
    ensures IsSuffix(Text(r.0, r.1) + r.0.input, Text(g, rank) + g.input)
    ensures g.size + |g.input| < MaxGrammarSize ==>
              Text(r.0, r.1) + r.0.input == Text(g, rank) + g.input
              && r.0.size + |r.0.input| <= g.size + |g.input|
    decreases |g.input|
  {
    if g.input == [] || Waiting(g, rank) then (g, rank)
    else
      EatStepSpec(g, rank);
      EatStepText(g, rank);
      var g', rank', k := EatStepOf(g, rank).g, StepRank(g, rank), EatenLength(g, rank);
      var r := EatDataOf(g', rank');
      DropIsSuffix(g.input, k);
      SuffixTrans(r.0.input, g'.input, g.input);
      SuffixTrans(Text(r.0, r.1) + r.0.input, Text(g', rank') + g'.input, Text(g, rank) + g.input);
      SuffixSplit(Text(g, rank), g.input, k);
      r
  }

  /**
   * flush(): run forced rounds until the queue is empty.  The root then
   * stands for all data appended, when the grammar stays below its size
   * limit, and for a suffix of it otherwise.
   */
  function FlushOf(g: Grammar, rank: Rank): (r: (Grammar, Rank))
    requires Valid(g, rank)
    ensures Valid(r.0, r.1) && r.0.input == []
    ensures IsSuffix(Text(r.0, r.1), Text(g, rank) + g.input)
    ensures g.size + |g.input| < MaxGrammarSize ==>
              Text(r.0, r.1) == Text(g, rank) + g.input && r.0.size <= g.size + |g.input|
    decreases |g.input|
  {
    if g.input == [] then (g, rank)
    else
      EatStepSpec(g, rank);
      EatStepText(g, rank);
      var g', rank', k := EatStepOf(g, rank).g, StepRank(g, rank), EatenLength(g, rank);
      var r := FlushOf(g', rank');
      SuffixTrans(Text(r.0, r.1), Text(g', rank') + g'.input, Text(g, rank) + g.input);
      SuffixSplit(Text(g, rank), g.input, k);
      r
  }

  /** The grammar after append(value) has queued the terminal. */
  function Enqueued(g: Grammar, value: int): Grammar
    requires g.eatDataPeriodicity >= 1
  {
    g.(input := g.input + [value],
       maxInputQueueLength := Max(g.maxInputQueueLength, |g.input| + 1),
       eatDataPeriodicity := g.eatDataPeriodicity - 1)
  }

  /** Queuing a terminal keeps the grammar valid, with the count restarted when it reaches 0. */
  lemma EnqueuedValid(g: Grammar, rank: Rank, value: int)
    requires Valid(g, rank)
    ensures var g1 := Enqueued(g, value);
      Valid(g1.(eatDataPeriodicity := EatDataPeriodicity), rank)
      && (g1.eatDataPeriodicity != 0 ==> Valid(g1, rank))
      && Text(g1, rank) == Text(g, rank)
  {
    var g1 := Enqueued(g, value);
    var g2 := g1.(eatDataPeriodicity := EatDataPeriodicity);
    assert Intact(g2) by {
      assert RuleSetOk(g2) && IdsOk(g2) && NoRootRef(g2) && BodiesOk(g2) && SizeOk(g2) && QueueOk(g2) && RepeatOk(g2);
    }
    if g1.eatDataPeriodicity != 0 {
      assert Intact(g1) by {
        assert RuleSetOk(g1) && IdsOk(g1) && NoRootRef(g1) && BodiesOk(g1) && SizeOk(g1) && QueueOk(g1) && RepeatOk(g1);
      }
    }
  }

  /**
   * append(value): queue the terminal; every 800th call runs eatData and
   * restarts the count.  eatData neither reads nor changes the count, so
   * it is restarted before eatData runs here.
   */
  function AppendOf(g: Grammar, rank: Rank, value: int): (r: (Grammar, Rank))
    requires Valid(g, rank)
    ensures Valid(r.0, r.1)
    ensures r.0.eatDataPeriodicity == if g.eatDataPeriodicity == 1 then EatDataPeriodicity else g.eatDataPeriodicity - 1
    ensures g.eatDataPeriodicity > 1 ==> r.0.input == g.input + [value] && r.0.rules == g.rules
    ensures IsSuffix(Text(r.0, r.1) + r.0.input, Text(g, rank) + g.input + [value])
    ensures g.size + |g.input| + 1 < MaxGrammarSize ==>
              Text(r.0, r.1) + r.0.input == Text(g, rank) + g.input + [value]
  {
    var g1 := Enqueued(g, value);
    EnqueuedValid(g, rank, value);
    assert Text(g, rank) + g.input + [value] == Text(g, rank) + g1.input;
    if g1.eatDataPeriodicity == 0 then
      EatDataOf(g1.(eatDataPeriodicity := EatDataPeriodicity), rank)
    else
      (g1, rank)
  }
}
