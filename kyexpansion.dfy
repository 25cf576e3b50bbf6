/**
 * The Kieffer-Yang grammar transform of KYGrammar, on values.
 *
 * A grammar is a set of rules, each a right side of terminals and
 * variables; a variable stands for the rule it names, and the root rule
 * stands for everything appended so far.  The linked right sides of the
 * C++ rules become sequences in a map from rule ids to right sides; the
 * digram index (terminalDigrams, variableDigrams, representedBy) is not
 * kept: where the code asks it for an earlier occurrence of a digram, the
 * model scans the right sides instead (FindDigram).
 *
 * A grammar has no cycles: every rule can be given a rank above the ranks
 * of the rules its right side names.  The expansion of a right side is
 * defined by recursion on such a rank, and is the only solution of the
 * rule equations (ExpansionUnique), so it does not depend on the rank
 * chosen.  That uniqueness is how every reduction is shown to keep the
 * text each rule stands for.
 */
module KYExpansion {
  import opened Wrappers

  type RuleId = nat

  /** A right-side element: a terminal value or a variable naming a rule. */
  datatype Symbol = T(value: int) | V(id: RuleId)

  type Rules = map<RuleId, seq<Symbol>>

  /** A nesting bound for every rule: the witness that the grammar has no cycles. */
  type Rank = map<RuleId, nat>

  // ---------------------------------------------------------------------
  // Expansion
  // ---------------------------------------------------------------------

  /** Every variable of s names a rule whose rank is below b. */
  predicate Below(rules: Rules, rank: Rank, s: seq<Symbol>, b: nat)
  {
    forall k :: 0 <= k < |s| && s[k].V? ==> s[k].id in rules && s[k].id in rank && rank[s[k].id] < b
  }

  /** Every right side names only existing rules of lower rank. */
  predicate Ranked(rules: Rules, rank: Rank)
  {
    forall i :: i in rules ==> i in rank && Below(rules, rank, rules[i], rank[i])
  }

  lemma BelowTail(rules: Rules, rank: Rank, s: seq<Symbol>, b: nat)
    requires Below(rules, rank, s, b) && s != []
    ensures Below(rules, rank, s[1..], b)
  {
    forall k | 0 <= k < |s[1..]| && s[1..][k].V?
      ensures s[1..][k].id in rules && s[1..][k].id in rank && rank[s[1..][k].id] < b
    {
      assert s[1..][k] == s[k + 1];
    }
  }

  /** The terminal string a sequence of symbols stands for. */
  function ExpandSeq(rules: Rules, rank: Rank, s: seq<Symbol>, b: nat): seq<int>
    requires Ranked(rules, rank) && Below(rules, rank, s, b)
    decreases b, |s|
  {
    if s == [] then []
    else
      BelowTail(rules, rank, s, b);
      (match s[0]
       case T(v) => [v]
       case V(j) => ExpandSeq(rules, rank, rules[j], rank[j]))
      + ExpandSeq(rules, rank, s[1..], b)
  }

  /** The terminal string rule id stands for. */
  function Expansion(rules: Rules, rank: Rank, id: RuleId): seq<int>
    requires Ranked(rules, rank) && id in rules
  {
    ExpandSeq(rules, rank, rules[id], rank[id])
  }

  /** The string of one symbol when each variable j stands for f[j] (nothing without an entry). */
  function FlatSym(x: Symbol, f: map<RuleId, seq<int>>): seq<int>
  {
    match x
    case T(v) => [v]
    case V(j) => if j in f then f[j] else []
  }

  /** The string s stands for when each variable j stands for f[j]. */
  function Flat(s: seq<Symbol>, f: map<RuleId, seq<int>>): seq<int>
  {
    if s == [] then [] else FlatSym(s[0], f) + Flat(s[1..], f)
  }

  lemma {:induction false} FlatAppend(a: seq<Symbol>, b: seq<Symbol>, f: map<RuleId, seq<int>>)
    ensures Flat(a + b, f) == Flat(a, f) + Flat(b, f)
  {
    if a == [] {
      assert a + b == b;
    } else {
      assert (a + b)[1..] == a[1..] + b && (a + b)[0] == a[0];
      FlatAppend(a[1..], b, f);
    }
  }

  lemma FlatOne(x: Symbol, f: map<RuleId, seq<int>>)
    ensures Flat([x], f) == FlatSym(x, f)
  {
    assert [x][1..] == [];
  }

  /** Two valuations that give every symbol of s the same string give s the same string. */
  lemma {:induction false} FlatAgree(s: seq<Symbol>, f: map<RuleId, seq<int>>, g: map<RuleId, seq<int>>)
    requires forall k :: 0 <= k < |s| ==> FlatSym(s[k], f) == FlatSym(s[k], g)
    ensures Flat(s, f) == Flat(s, g)
  {
    if s != [] {
      assert FlatSym(s[0], f) == FlatSym(s[0], g);
      forall k | 0 <= k < |s[1..]| ensures FlatSym(s[1..][k], f) == FlatSym(s[1..][k], g) {
        assert s[1..][k] == s[k + 1];
      }
      FlatAgree(s[1..], f, g);
    }
  }

  /** Expanding a sequence is flattening it with the expansions of its variables. */
  lemma {:induction false} ExpandIsFlat(rules: Rules, rank: Rank, s: seq<Symbol>, b: nat, f: map<RuleId, seq<int>>)
    requires Ranked(rules, rank) && Below(rules, rank, s, b)
    requires forall k :: 0 <= k < |s| && s[k].V? ==> s[k].id in f && f[s[k].id] == Expansion(rules, rank, s[k].id)
    ensures ExpandSeq(rules, rank, s, b) == Flat(s, f)
    decreases |s|
  {
    if s != [] {
      BelowTail(rules, rank, s, b);
      forall k | 0 <= k < |s[1..]| && s[1..][k].V?
        ensures s[1..][k].id in f && f[s[1..][k].id] == Expansion(rules, rank, s[1..][k].id)
      {
        assert s[1..][k] == s[k + 1];
      }
      ExpandIsFlat(rules, rank, s[1..], b, f);
    }
  }

  /** The expansions of all rules, as a valuation. */
  function ExpansionMap(rules: Rules, rank: Rank): (f: map<RuleId, seq<int>>)
    requires Ranked(rules, rank)
    ensures f.Keys == rules.Keys
  {
    map i | i in rules :: Expansion(rules, rank, i)
  }

  /** A valuation solves the rule equations when each rule stands for its flattened right side. */
  predicate Solves(rules: Rules, f: map<RuleId, seq<int>>)
  {
    forall i :: i in rules ==> i in f && f[i] == Flat(rules[i], f)
  }

  /** Setting one equation to another solved one and dropping one keeps a solution. */
  lemma SolvesSetDrop(rules: Rules, f: map<RuleId, seq<int>>, m: RuleId, body: seq<Symbol>, n: RuleId)
    requires Solves(rules, f) && m in f && f[m] == Flat(body, f)
    ensures Solves(rules[m := body] - {n}, f)
  {
  }

  /** The expansions solve the rule equations. */
  lemma ExpansionSolves(rules: Rules, rank: Rank)
    requires Ranked(rules, rank)
    ensures Solves(rules, ExpansionMap(rules, rank))
  {
    var f := ExpansionMap(rules, rank);
    forall i | i in rules ensures i in f && f[i] == Flat(rules[i], f) {
      ExpandIsFlat(rules, rank, rules[i], rank[i], f);
    }
  }

  lemma {:induction false} SolutionBelow(rules: Rules, rank: Rank, f: map<RuleId, seq<int>>, b: nat)
    requires Ranked(rules, rank) && Solves(rules, f)
    ensures forall i :: i in rules && rank[i] < b ==> f[i] == Expansion(rules, rank, i)
  {
    if b > 0 {
      SolutionBelow(rules, rank, f, b - 1);
      forall i | i in rules && rank[i] < b ensures f[i] == Expansion(rules, rank, i) {
        if rank[i] == b - 1 {
          ExpandIsFlat(rules, rank, rules[i], rank[i], f);
        }
      }
    }
  }

  /** Any solution of the rule equations is the expansion: the grammar determines its strings. */
  lemma ExpansionUnique(rules: Rules, rank: Rank, f: map<RuleId, seq<int>>)
    requires Ranked(rules, rank) && Solves(rules, f)
    ensures forall i :: i in rules ==> f[i] == Expansion(rules, rank, i)
  {
    forall i | i in rules ensures f[i] == Expansion(rules, rank, i) {
      SolutionBelow(rules, rank, f, rank[i] + 1);
    }
  }

  /** The expansion does not depend on the rank chosen. */
  lemma ExpansionRankFree(rules: Rules, rank1: Rank, rank2: Rank, id: RuleId)
    requires Ranked(rules, rank1) && Ranked(rules, rank2) && id in rules
    ensures Expansion(rules, rank1, id) == Expansion(rules, rank2, id)
  {
    ExpansionSolves(rules, rank2);
    ExpansionUnique(rules, rank1, ExpansionMap(rules, rank2));
  }

  // ---------------------------------------------------------------------
  // Membership forms, and flattening after a replacement
  // ---------------------------------------------------------------------

  lemma BelowOf(rules: Rules, rank: Rank, s: seq<Symbol>, b: nat)
    requires forall x :: x in s && x.V? ==> x.id in rules && x.id in rank && rank[x.id] < b
    ensures Below(rules, rank, s, b)
  {
    forall k | 0 <= k < |s| && s[k].V? ensures s[k].id in rules && s[k].id in rank && rank[s[k].id] < b {
      assert s[k] in s;
    }
  }

  lemma BelowIn(rules: Rules, rank: Rank, s: seq<Symbol>, b: nat)
    requires Below(rules, rank, s, b)
    ensures forall x :: x in s && x.V? ==> x.id in rules && x.id in rank && rank[x.id] < b
  {
  }

  /** Two valuations that agree on the variables of s give s the same string. */
  lemma FlatAgreeIn(s: seq<Symbol>, f: map<RuleId, seq<int>>, g: map<RuleId, seq<int>>)
    requires forall x :: x in s && x.V? ==> x.id in f && x.id in g && f[x.id] == g[x.id]
    ensures Flat(s, f) == Flat(s, g)
  {
    forall k | 0 <= k < |s| ensures FlatSym(s[k], f) == FlatSym(s[k], g) {
      assert s[k] in s;
    }
    FlatAgree(s, f, g);
  }

  /** Replacing an occurrence of a pair by a variable standing for that pair keeps the string. */
  lemma FlatReplacePair(s: seq<Symbol>, p: nat, m: RuleId, f: map<RuleId, seq<int>>)
    requires p + 1 < |s| && m in f && f[m] == Flat([s[p], s[p + 1]], f)
    ensures Flat(s[..p] + [V(m)] + s[p + 2..], f) == Flat(s, f)
  {
    var a, pair, c := s[..p], [s[p], s[p + 1]], s[p + 2..];
    assert s == a + pair + c;
    FlatAppend(a, pair, f);
    FlatAppend(a + pair, c, f);
    FlatOne(V(m), f);
    FlatAppend(a, [V(m)], f);
    FlatAppend(a + [V(m)], c, f);
  }

  lemma FlatPair(a: Symbol, b: Symbol, f: map<RuleId, seq<int>>)
    ensures Flat([a, b], f) == FlatSym(a, f) + FlatSym(b, f)
  {
    assert [a, b][1..] == [b];
    FlatOne(b, f);
  }

  /** A string is the string of all but its last symbol followed by that symbol's. */
  lemma FlatSnoc(r: seq<Symbol>, f: map<RuleId, seq<int>>)
    requires |r| >= 1
    ensures Flat(r, f) == Flat(r[..|r| - 1], f) + FlatSym(r[|r| - 1], f)
  {
    assert r == r[..|r| - 1] + [r[|r| - 1]];
    FlatOne(r[|r| - 1], f);
    FlatAppend(r[..|r| - 1], [r[|r| - 1]], f);
  }

  /**
   * A right side ending in V(m), where m stands for the last symbol of r
   * followed by el and the rest flattens like the rest of r, stands for
   * r's string followed by el's.
   */
  lemma FlatEndReplaced(qr: seq<Symbol>, m: RuleId, f: map<RuleId, seq<int>>, r: seq<Symbol>, el: Symbol, f0: map<RuleId, seq<int>>)
    requires |r| >= 1 && m in f && Flat(qr, f) == Flat(r[..|r| - 1], f0)
    requires f[m] == Flat([r[|r| - 1], el], f0)
    ensures Flat(qr + [V(m)], f) == Flat(r, f0) + FlatSym(el, f0)
  {
    FlatOne(V(m), f);
    FlatAppend(qr, [V(m)], f);
    FlatSnoc(r, f0);
    FlatPair(r[|r| - 1], el, f0);
    ConcatAssoc(Flat(r[..|r| - 1], f0), FlatSym(r[|r| - 1], f0), FlatSym(el, f0));
  }

  lemma ConcatAssoc(a: seq<int>, b: seq<int>, c: seq<int>)
    ensures a + (b + c) == (a + b) + c
  {
  }

  /** The element at k of a right side whose pair at p was replaced by V(m). */
  lemma ReplacedIndex(b: seq<Symbol>, p: nat, m: RuleId, k: nat)
    requires p + 1 < |b| && k < |b| - 1
    ensures var s := b[..p] + [V(m)] + b[p + 2..];
      |s| == |b| - 1 && s[k] == (if k < p then b[k] else if k == p then V(m) else b[k + 1])
  {
  }

  lemma InReplacedPair(b: seq<Symbol>, p: nat, m: RuleId, x: Symbol)
    requires p + 1 < |b| && x in b[..p] + [V(m)] + b[p + 2..]
    ensures x == V(m) || x in b
  {
    var s := b[..p] + [V(m)] + b[p + 2..];
    var k :| 0 <= k < |s| && s[k] == x;
    ReplacedIndex(b, p, m, k);
    if k != p {
      assert b[if k < p then k else k + 1] == x;
    }
  }

  lemma InDropLast(r: seq<Symbol>, x: Symbol)
    requires |r| >= 1 && x in r[..|r| - 1]
    ensures x in r
  {
    var k :| 0 <= k < |r| - 1 && r[..|r| - 1][k] == x;
    assert r[k] == x;
  }

  /** Adding an entry for a rule id that no right side names keeps a solution. */
  lemma SolvesExtend(rules: Rules, f: map<RuleId, seq<int>>, m: RuleId, w: seq<int>)
    requires Solves(rules, f) && m !in rules
    requires forall i :: i in rules ==> V(m) !in rules[i]
    ensures Solves(rules, f[m := w])
  {
    var f' := f[m := w];
    forall i | i in rules ensures i in f' && f'[i] == Flat(rules[i], f') {
      forall k | 0 <= k < |rules[i]| ensures FlatSym(rules[i][k], f) == FlatSym(rules[i][k], f') {
        assert rules[i][k] in rules[i];
      }
      FlatAgree(rules[i], f, f');
    }
  }

  // ---------------------------------------------------------------------
  // Rule lists and grammar size
  // ---------------------------------------------------------------------

  predicate Distinct(s: seq<RuleId>)
  {
    forall i, j :: 0 <= i < j < |s| ==> s[i] != s[j]
  }

  /** The list without its first occurrence of x, as List::remove(item) unlinks it. */
  function Without(s: seq<RuleId>, x: RuleId): (r: seq<RuleId>)
    ensures x !in s ==> r == s
    ensures x in s ==> |r| == |s| - 1
    ensures forall y :: y in r ==> y in s
    ensures forall y :: y in s && y != x ==> y in r
  {
    if s == [] then []
    else if s[0] == x then s[1..]
    else [s[0]] + Without(s[1..], x)
  }

  lemma {:induction false} WithoutAt(s: seq<RuleId>, x: RuleId, i: nat)
    requires i < |s| && s[i] == x && forall j :: 0 <= j < i ==> s[j] != x
    ensures Without(s, x) == s[..i] + s[i + 1..]
  {
    if i > 0 {
      WithoutAt(s[1..], x, i - 1);
      assert s[1..][..i - 1] == s[1..i];
      assert s[1..][i..] == s[i + 1..];
      assert [s[0]] + s[1..i] == s[..i];
    }
  }

  lemma DistinctSnoc(s: seq<RuleId>, x: RuleId)
    requires Distinct(s) && x !in s
    ensures Distinct(s + [x])
  {
  }

  lemma WithoutDistinct(s: seq<RuleId>, x: RuleId)
    requires Distinct(s)
    ensures Distinct(Without(s, x)) && x !in Without(s, x)
  {
    if x in s {
      var i :| 0 <= i < |s| && s[i] == x;
      WithoutAt(s, x, i);
      RemoveAtDistinct(s, i);
      RemoveAtDrops(s, i);
    }
  }

  /** Taking one element out keeps a list duplicate-free. */
  lemma RemoveAtDistinct(s: seq<RuleId>, i: nat)
    requires Distinct(s) && i < |s|
    ensures Distinct(s[..i] + s[i + 1..])
  {
    var r := s[..i] + s[i + 1..];
    forall a, b | 0 <= a < b < |r| ensures r[a] != r[b] {
      var a' := if a < i then a else a + 1;
      var b' := if b < i then b else b + 1;
      assert r[a] == s[a'] && r[b] == s[b'];
    }
  }

  /** Taking the element at i out of a duplicate-free list removes its value. */
  lemma RemoveAtDrops(s: seq<RuleId>, i: nat)
    requires Distinct(s) && i < |s|
    ensures s[i] !in s[..i] + s[i + 1..]
  {
    var r := s[..i] + s[i + 1..];
    forall k | 0 <= k < |r| ensures r[k] != s[i] {
      assert r[k] == s[if k < i then k else k + 1];
    }
  }

  /** The number of symbols on the right sides of the rules listed in ids. */
  function Total(rules: Rules, ids: seq<RuleId>): nat
  {
    if ids == [] then 0
    else Total(rules, ids[..|ids| - 1]) + Len(rules, ids[|ids| - 1])
  }

  function Len(rules: Rules, i: RuleId): nat
  {
    if i in rules then |rules[i]| else 0
  }

  lemma {:induction false} TotalConcat(rules: Rules, a: seq<RuleId>, b: seq<RuleId>)
    ensures Total(rules, a + b) == Total(rules, a) + Total(rules, b)
    decreases |b|
  {
    if b == [] {
      assert a + b == a;
    } else {
      assert (a + b)[..|a + b| - 1] == a + b[..|b| - 1];
      assert (a + b)[|a + b| - 1] == b[|b| - 1];
      TotalConcat(rules, a, b[..|b| - 1]);
    }
  }

  lemma {:induction false} TotalFrame(rules: Rules, rules2: Rules, ids: seq<RuleId>)
    requires forall k :: 0 <= k < |ids| ==> Len(rules, ids[k]) == Len(rules2, ids[k])
    ensures Total(rules, ids) == Total(rules2, ids)
    decreases |ids|
  {
    if ids != [] {
      assert Len(rules, ids[|ids| - 1]) == Len(rules2, ids[|ids| - 1]);
      TotalFrame(rules, rules2, ids[..|ids| - 1]);
    }
  }

  /** The total around position i of the list. */
  lemma TotalSplit(rules: Rules, ids: seq<RuleId>, i: nat)
    requires i < |ids|
    ensures Total(rules, ids) == Total(rules, ids[..i]) + Len(rules, ids[i]) + Total(rules, ids[i + 1..])
  {
    assert ids == ids[..i] + [ids[i]] + ids[i + 1..];
    TotalConcat(rules, ids[..i] + [ids[i]], ids[i + 1..]);
    TotalConcat(rules, ids[..i], [ids[i]]);
    assert Total(rules, [ids[i]]) == Len(rules, ids[i]) by { assert [ids[i]][..0] == []; }
  }

  /** A rule that is not listed does not count. */
  lemma TotalOutside(rules: Rules, ids: seq<RuleId>, x: RuleId, body: seq<Symbol>)
    requires x !in ids
    ensures Total(rules[x := body], ids) == Total(rules, ids)
  {
    forall k | 0 <= k < |ids| ensures Len(rules, ids[k]) == Len(rules[x := body], ids[k]) {
      assert ids[k] in ids;
    }
    TotalFrame(rules, rules[x := body], ids);
  }

  /** A listed id occurs neither before nor after its position. */
  lemma DistinctAround(ids: seq<RuleId>, i: nat)
    requires Distinct(ids) && i < |ids|
    ensures ids[i] !in ids[..i] && ids[i] !in ids[i + 1..]
  {
    forall k | 0 <= k < i ensures ids[..i][k] != ids[i] {
      assert ids[..i][k] == ids[k];
    }
    var t := ids[i + 1..];
    forall k | 0 <= k < |t| ensures t[k] != ids[i] {
      assert t[k] == ids[i + 1 + k];
    }
  }

  /** Changing one listed rule's right side changes the total by the difference in length. */
  lemma TotalUpdate(rules: Rules, ids: seq<RuleId>, x: RuleId, body: seq<Symbol>)
    requires Distinct(ids) && x in ids
    ensures Total(rules[x := body], ids) + Len(rules, x) == Total(rules, ids) + |body|
  {
    var i :| 0 <= i < |ids| && ids[i] == x;
    TotalSplit(rules, ids, i);
    TotalSplit(rules[x := body], ids, i);
    DistinctAround(ids, i);
    TotalOutside(rules, ids[..i], x, body);
    TotalOutside(rules, ids[i + 1..], x, body);
  }

  /** Unlisting a rule takes its right side out of the total. */
  lemma TotalWithout(rules: Rules, ids: seq<RuleId>, x: RuleId)
    requires Distinct(ids) && x in ids
    ensures Total(rules, Without(ids, x)) + Len(rules, x) == Total(rules, ids)
  {
    var i :| 0 <= i < |ids| && ids[i] == x;
    DistinctAround(ids, i);
    WithoutAt(ids, x, i);
    TotalSplit(rules, ids, i);
    TotalConcat(rules, ids[..i], ids[i + 1..]);
  }

  /** Two rule maps whose listed lengths differ only at x differ in total by the difference at x. */
  lemma TotalChange(rules: Rules, rules2: Rules, ids: seq<RuleId>, x: RuleId)
    requires Distinct(ids) && x in ids
    requires forall k :: 0 <= k < |ids| && ids[k] != x ==> Len(rules, ids[k]) == Len(rules2, ids[k])
    ensures Total(rules2, ids) + Len(rules, x) == Total(rules, ids) + Len(rules2, x)
  {
    var body: seq<Symbol> := if x in rules2 then rules2[x] else [];
    TotalUpdate(rules, ids, x, body);
    TotalFrame(rules[x := body], rules2, ids);
  }

  /** A list stays duplicate-free without its last element. */
  lemma DistinctPrefix(s: seq<RuleId>, m: RuleId)
    requires Distinct(s + [m])
    ensures Distinct(s) && m !in s
  {
    forall k | 0 <= k < |s| ensures s[k] != m {
      assert (s + [m])[k] == s[k] && (s + [m])[|s|] == m;
    }
    forall i, j | 0 <= i < j < |s| ensures s[i] != s[j] {
      assert (s + [m])[i] == s[i] && (s + [m])[j] == s[j];
    }
  }

  /** Dropping listed rule n, and changing unlisted m, takes n's length out of the total. */
  lemma TotalMergePrefix(q: Rules, s: seq<RuleId>, m: RuleId, n: RuleId, body: seq<Symbol>)
    requires Distinct(s) && n in s && m !in s && n in q
    ensures Total(q[m := body] - {n}, s) + |q[n]| == Total(q, s)
  {
    var q' := q[m := body] - {n};
    forall k | 0 <= k < |s| && s[k] != n ensures Len(q, s[k]) == Len(q', s[k]) {
      assert s[k] in s;
    }
    TotalChange(q, q', s, n);
  }

  /** Rule m gets a new right side and rule n goes, from the map and from the list. */
  lemma TotalMerge(q: Rules, s: seq<RuleId>, m: RuleId, n: RuleId, body: seq<Symbol>)
    requires Distinct(s + [m]) && n in s && n in q && m in q
    ensures Total(q[m := body] - {n}, Without(s + [m], n)) + |q[n]| + |q[m]| == Total(q, s + [m]) + |body|
  {
    var q' := q[m := body] - {n};
    assert n != m by { assert (s + [m])[|s|] == m; }
    assert n in s + [m];
    TotalWithout(q', s + [m], n);
    TotalConcat(q', s, [m]);
    TotalConcat(q, s, [m]);
    assert Total(q', [m]) == |body| && Total(q, [m]) == |q[m]| by { assert [m][..0] == []; }
    DistinctPrefix(s, m);
    TotalMergePrefix(q, s, m, n, body);
  }
}
