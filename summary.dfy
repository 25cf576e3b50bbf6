/**
 * The helper script that summarises compression results: for each suffix
 * given on the command line it groups the files of the directory by the
 * name before '.' + suffix, keeps the groups that have a file for every
 * suffix, marks the smallest files of each group and accumulates each
 * suffix's size relative to the group's first file (in bits per
 * character of the original when the first suffix names it).
 */
module Summary {
  import opened Wrappers

  /** One entry of a group: [suffix, [size, flag]]. */
  datatype Record = Record(suffix: string, size: nat, flag: int)

  predicate Distinct(s: seq<string>)
  {
    forall i, j :: 0 <= i < j < |s| ==> s[i] != s[j]
  }

  /** Every listed file has a size (os.stat succeeds on the directory's entries). */
  predicate Sized(all: seq<string>, sizes: map<string, nat>)
  {
    forall i :: 0 <= i < |all| ==> all[i] in sizes
  }

  /** The records of `key`, none when it has no entry. */
  function Lookup(files: map<string, seq<Record>>, key: string): seq<Record>
  {
    if key in files then files[key] else []
  }

  /** Python's file[-l:] == suffix for a non-empty suffix. */
  predicate EndsWith(file: string, suffix: string)
  {
    |suffix| <= |file| && file[|file| - |suffix|..] == suffix
  }

  /** One iteration of add_files' loop: a matching file adds its record to the group of file[:-l]. */
  function AddFile(files: map<string, seq<Record>>, file: string, size: nat, suffix: string): map<string, seq<Record>>
  {
    if EndsWith(file, suffix) then
      var key := file[..|file| - |suffix|];
      files[key := Lookup(files, key) + [Record(suffix, size, 0)]]
    else files
  }

  /** add_files(suffix) over the directory listing `all`. */
  function AddFilesOf(files: map<string, seq<Record>>, all: seq<string>, sizes: map<string, nat>, suffix: string): map<string, seq<Record>>
    requires Sized(all, sizes)
    decreases |all|
  {
    if all == [] then files
    else AddFilesOf(AddFile(files, all[0], sizes[all[0]], suffix), all[1..], sizes, suffix)
  }

  /** A file joins group `key` exactly when it is named key + suffix. */
  lemma AddFileLookup(files: map<string, seq<Record>>, file: string, size: nat, suffix: string, key: string)
    ensures Lookup(AddFile(files, file, size, suffix), key) ==
      Lookup(files, key) + (if file == key + suffix then [Record(suffix, size, 0)] else [])
    ensures key in AddFile(files, file, size, suffix) <==> key in files || file == key + suffix
  {
    if EndsWith(file, suffix) {
      var k := file[..|file| - |suffix|];
      assert file == k + suffix;
      if file == key + suffix {
        assert k == key;
      }
    }
  }

  /** After add_files, group `key` has gained one record if the directory holds key + suffix. */
  lemma {:induction false} AddFilesLookup(files: map<string, seq<Record>>, all: seq<string>, sizes: map<string, nat>, suffix: string, key: string)
    requires Sized(all, sizes) && Distinct(all)
    ensures Lookup(AddFilesOf(files, all, sizes, suffix), key) ==
      Lookup(files, key) + (if key + suffix in all then [Record(suffix, sizes[key + suffix], 0)] else [])
    ensures key in AddFilesOf(files, all, sizes, suffix) <==> key in files || key + suffix in all
    decreases |all|
  {
    if all != [] {
      var files' := AddFile(files, all[0], sizes[all[0]], suffix);
      AddFileLookup(files, all[0], sizes[all[0]], suffix, key);
      assert Sized(all[1..], sizes);
      assert Distinct(all[1..]) by {
        forall i, j | 0 <= i < j < |all[1..]|
          ensures all[1..][i] != all[1..][j]
        {
          assert all[1..][i] == all[i + 1] && all[1..][j] == all[j + 1];
        }
      }
      AddFilesLookup(files', all[1..], sizes, suffix, key);
      assert key + suffix in all <==> all[0] == key + suffix || key + suffix in all[1..] by {
        assert all == [all[0]] + all[1..];
      }
      if all[0] == key + suffix {
        assert key + suffix !in all[1..] by {
          forall i | 0 <= i < |all[1..]|
            ensures all[1..][i] != key + suffix
          {
            assert all[1..][i] == all[i + 1];
          }
        }
      }
    }
  }

  /** The script's loop over the suffix arguments, each prefixed with '.'. */
  function GroupsOf(files: map<string, seq<Record>>, all: seq<string>, sizes: map<string, nat>, sufs: seq<string>): map<string, seq<Record>>
    requires Sized(all, sizes)
    decreases |sufs|
  {
    if sufs == [] then files
    else GroupsOf(AddFilesOf(files, all, sizes, "." + sufs[0]), all, sizes, sufs[1..])
  }

  /** The records group `key` gets: one per suffix argument whose file exists, in argument order. */
  function RecordsFor(key: string, all: seq<string>, sizes: map<string, nat>, sufs: seq<string>): seq<Record>
    requires Sized(all, sizes)
    decreases |sufs|
  {
    if sufs == [] then []
    else
      var name := key + "." + sufs[0];
      (if name in all then [Record("." + sufs[0], sizes[name], 0)] else []) + RecordsFor(key, all, sizes, sufs[1..])
  }

  /** Grouping gives each key exactly the records of RecordsFor, and only keys with a record. */
  lemma {:induction false} GroupsLookup(files: map<string, seq<Record>>, all: seq<string>, sizes: map<string, nat>, sufs: seq<string>, key: string)
    requires Sized(all, sizes) && Distinct(all)
    ensures Lookup(GroupsOf(files, all, sizes, sufs), key) == Lookup(files, key) + RecordsFor(key, all, sizes, sufs)
    ensures key in GroupsOf(files, all, sizes, sufs) <==> key in files || RecordsFor(key, all, sizes, sufs) != []
    decreases |sufs|
  {
    if sufs != [] {
      var suffix := "." + sufs[0];
      assert key + suffix == key + "." + sufs[0];
      var files' := AddFilesOf(files, all, sizes, suffix);
      AddFilesLookup(files, all, sizes, suffix, key);
      GroupsLookup(files', all, sizes, sufs[1..], key);
      var mine := if key + suffix in all then [Record(suffix, sizes[key + suffix], 0)] else [];
      assert RecordsFor(key, all, sizes, sufs) == mine + RecordsFor(key, all, sizes, sufs[1..]);
      assert Lookup(files', key) == Lookup(files, key) + mine;
      assert (Lookup(files, key) + mine) + RecordsFor(key, all, sizes, sufs[1..])
          == Lookup(files, key) + (mine + RecordsFor(key, all, sizes, sufs[1..]));
    }
  }

  /** A group has at most one record per suffix, and one for each exactly when every file exists. */
  lemma {:induction false} RecordsForLength(key: string, all: seq<string>, sizes: map<string, nat>, sufs: seq<string>)
    requires Sized(all, sizes)
    ensures |RecordsFor(key, all, sizes, sufs)| <= |sufs|
    ensures |RecordsFor(key, all, sizes, sufs)| == |sufs| <==> forall i :: 0 <= i < |sufs| ==> key + "." + sufs[i] in all
    decreases |sufs|
  {
    if sufs != [] {
      RecordsForLength(key, all, sizes, sufs[1..]);
      assert forall i :: 1 <= i < |sufs| ==> sufs[i] == sufs[1..][i - 1];
    }
  }

  /** The groups kept: those with one record per suffix argument. */
  function CompleteOf(files: map<string, seq<Record>>, n: nat): map<string, seq<Record>>
  {
    map k | k in files && |files[k]| == n :: files[k]
  }

  /** The groups reported with "Some files for ... were not found!". */
  function MissingOf(files: map<string, seq<Record>>, n: nat): set<string>
  {
    set k | k in files && |files[k]| != n
  }

  /**
   * A base name is kept exactly when the directory holds its file for
   * every suffix argument (and there is at least one), and is reported
   * exactly when it has some but not all of them.
   */
  lemma CompleteIff(all: seq<string>, sizes: map<string, nat>, sufs: seq<string>, key: string)
    requires Sized(all, sizes) && Distinct(all)
    ensures key in CompleteOf(GroupsOf(map[], all, sizes, sufs), |sufs|) <==>
      |sufs| > 0 && forall i :: 0 <= i < |sufs| ==> key + "." + sufs[i] in all
    ensures key in MissingOf(GroupsOf(map[], all, sizes, sufs), |sufs|) <==>
      (exists i :: 0 <= i < |sufs| && key + "." + sufs[i] in all) && !(forall i :: 0 <= i < |sufs| ==> key + "." + sufs[i] in all)
  {
    var g := GroupsOf(map[], all, sizes, sufs);
    GroupsLookup(map[], all, sizes, sufs, key);
    RecordsForLength(key, all, sizes, sufs);
    RecordsForEmpty(key, all, sizes, sufs);
    if key in g {
      assert g[key] == RecordsFor(key, all, sizes, sufs);
    }
  }

  /** A group has no record exactly when no suffix's file exists. */
  lemma {:induction false} RecordsForEmpty(key: string, all: seq<string>, sizes: map<string, nat>, sufs: seq<string>)
    requires Sized(all, sizes)
    ensures RecordsFor(key, all, sizes, sufs) == [] <==> forall i :: 0 <= i < |sufs| ==> key + "." + sufs[i] !in all
    decreases |sufs|
  {
    if sufs != [] {
      RecordsForEmpty(key, all, sizes, sufs[1..]);
      assert forall i :: 1 <= i < |sufs| ==> sufs[i] == sufs[1..][i - 1];
    }
  }

  // ---------------------------------------------------------------------
  // Marking the smallest files
  // ---------------------------------------------------------------------

  /** The smallest size of a group. */
  function MinSize(recs: seq<Record>): nat
    requires |recs| > 0
  {
    if |recs| == 1 then recs[0].size
    else
      var m := MinSize(recs[..|recs| - 1]);
      if recs[|recs| - 1].size < m then recs[|recs| - 1].size else m
  }

  /** MinSize is a lower bound attained by some record. */
  lemma {:induction false} MinSizeIsMinimum(recs: seq<Record>)
    requires |recs| > 0
    ensures forall j :: 0 <= j < |recs| ==> MinSize(recs) <= recs[j].size
    ensures exists j :: 0 <= j < |recs| && MinSize(recs) == recs[j].size
    decreases |recs|
  {
    if |recs| == 1 {
      assert MinSize(recs) == recs[0].size;
    } else {
      var init := recs[..|recs| - 1];
      MinSizeIsMinimum(init);
      assert forall j :: 0 <= j < |init| ==> init[j] == recs[j];
      var j :| 0 <= j < |init| && MinSize(init) == init[j].size;
      if recs[|recs| - 1].size < MinSize(init) {
        assert MinSize(recs) == recs[|recs| - 1].size;
      } else {
        assert MinSize(recs) == recs[j].size;
      }
    }
  }

  /** The group with flag 1 on every record of the smallest size and 0 on the others. */
  function Marked(recs: seq<Record>): (r: seq<Record>)
    requires |recs| > 0
    ensures |r| == |recs|
  {
    var m := MinSize(recs);
    seq(|recs|, j requires 0 <= j < |recs| => recs[j].(flag := if recs[j].size == m then 1 else 0))
  }

  /** A record is flagged exactly when no record of its group is smaller; ties are all flagged and at least one is. */
  lemma MarkedFlags(recs: seq<Record>)
    requires |recs| > 0
    ensures forall j :: 0 <= j < |recs| ==>
      Marked(recs)[j].suffix == recs[j].suffix && Marked(recs)[j].size == recs[j].size &&
      (Marked(recs)[j].flag == 1 <==> forall i :: 0 <= i < |recs| ==> recs[j].size <= recs[i].size) &&
      (Marked(recs)[j].flag == 0 || Marked(recs)[j].flag == 1)
    ensures exists j :: 0 <= j < |recs| && Marked(recs)[j].flag == 1
  {
    MinSizeIsMinimum(recs);
    var w :| 0 <= w < |recs| && MinSize(recs) == recs[w].size;
    assert Marked(recs)[w].flag == 1;
  }

  /** A value the script compares: Python 2 orders every number below every string. */
  datatype PyValue = Int(n: int) | Str(s: string)

  predicate IntBelow(x: int, v: PyValue)
  {
    match v
    case Int(y) => x < y
    case Str(_) => true
  }

  /**
   * The marking loops of one group.  The search is seeded with the second
   * record's suffix string, which every size compares below; a group with
   * fewer than two records makes the seeding fail with an IndexError (None).
   */
  method MarkBest(recs: seq<Record>) returns (r: Option<seq<Record>>)
    ensures r.None? <==> |recs| < 2
    ensures r.Some? ==> r.value == Marked(recs)
  {
    if |recs| < 2 {
      return None;
    }
    var smallest := Str(recs[1].suffix);
    for i := 0 to |recs|
      invariant i == 0 ==> smallest == Str(recs[1].suffix)
      invariant i > 0 ==> smallest == Int(MinSize(recs[..i]))
    {
      if IntBelow(recs[i].size, smallest) {
        smallest := Int(recs[i].size);
      }
      assert recs[..i + 1][..i] == recs[..i];
    }
    assert recs[..|recs|] == recs;
    var out: seq<Record> := [];
    for i := 0 to |recs|
      invariant |out| == i
      invariant forall j :: 0 <= j < i ==> out[j] == Marked(recs)[j]
    {
      var flag := if recs[i].size == smallest.n then 1 else 0;
      out := out + [recs[i].(flag := flag)];
    }
    return Some(out);
  }

  // ---------------------------------------------------------------------
  // Ratios and their accumulation
  // ---------------------------------------------------------------------

  /** The ratio printed for a record: size * 8 / base_size (in exact arithmetic). */
  function Ratio(size: nat, base: nat): real
    requires base > 0
  {
    (size * 8) as real / base as real
  }

  /** How the script stops with a Python exception. */
  datatype Failure = IndexError | ZeroDivisionError | KeyError

  datatype Sums = Sums(bpc: map<string, real>) | Fails(failure: Failure)

  /** The loop over rec in complete_files[file][1:] of a group whose first size is `base`. */
  function AddRatios(bpc: map<string, real>, recs: seq<Record>, base: nat): Sums
    decreases |recs|
  {
    if recs == [] then Sums(bpc)
    else if base == 0 then Fails(ZeroDivisionError)
    else if recs[0].suffix !in bpc then Fails(KeyError)
    else AddRatios(bpc[recs[0].suffix := bpc[recs[0].suffix] + Ratio(recs[0].size, base)], recs[1..], base)
  }

  /** What the records add to suffix `s`. */
  function Contribution(recs: seq<Record>, base: nat, s: string): real
    decreases |recs|
  {
    if recs == [] || base == 0 then 0.0
    else (if recs[0].suffix == s then Ratio(recs[0].size, base) else 0.0) + Contribution(recs[1..], base, s)
  }

  /** The loop raises nothing: a positive base and every suffix already a key. */
  predicate RatiosDefined(keys: set<string>, recs: seq<Record>, base: nat)
  {
    recs == [] || (base > 0 && forall j :: 0 <= j < |recs| ==> recs[j].suffix in keys)
  }

  /** The loop raises nothing on a group exactly when it raises nothing on the group's tail, given a good first record. */
  lemma RatiosDefinedTail(keys: set<string>, recs: seq<Record>, base: nat)
    requires recs != [] && base > 0 && recs[0].suffix in keys
    ensures RatiosDefined(keys, recs, base) <==> RatiosDefined(keys, recs[1..], base)
  {
    assert forall j :: 1 <= j < |recs| ==> recs[j] == recs[1..][j - 1];
  }

  /** `after` holds the same suffixes as `before`, each increased by what `recs` contribute to it. */
  ghost predicate AddsContributions(after: map<string, real>, before: map<string, real>, recs: seq<Record>, base: nat)
  {
    after.Keys == before.Keys && forall s :: s in before ==> after[s] == before[s] + Contribution(recs, base, s)
  }

  /** The loop over one group adds each record's ratio to its suffix, or raises. */
  lemma {:induction false} AddRatiosClosed(bpc: map<string, real>, recs: seq<Record>, base: nat)
    ensures AddRatios(bpc, recs, base).Sums? <==> RatiosDefined(bpc.Keys, recs, base)
    ensures AddRatios(bpc, recs, base).Sums? ==> AddsContributions(AddRatios(bpc, recs, base).bpc, bpc, recs, base)
    decreases |recs|
  {
    if recs != [] && base > 0 && recs[0].suffix in bpc {
      var s0 := recs[0].suffix;
      var bpc' := bpc[s0 := bpc[s0] + Ratio(recs[0].size, base)];
      AddRatiosClosed(bpc', recs[1..], base);
      RatiosDefinedTail(bpc.Keys, recs, base);
      if AddRatios(bpc', recs[1..], base).Sums? {
        var r := AddRatios(bpc', recs[1..], base).bpc;
        forall s | s in bpc
          ensures r[s] == bpc[s] + Contribution(recs, base, s)
        {
          assert Contribution(recs, base, s) == (if s0 == s then Ratio(recs[0].size, base) else 0.0) + Contribution(recs[1..], base, s);
        }
      }
    }
  }

  predicate NonEmptyGroups(groups: map<string, seq<Record>>)
  {
    forall k :: k in groups ==> |groups[k]| > 0
  }

  predicate Covers(groups: map<string, seq<Record>>, order: seq<string>)
  {
    forall k :: k in order ==> k in groups
  }

  /** The loop over the groups in the order `order`, from the per-suffix sums `bpc`. */
  function AccumulateOf(bpc: map<string, real>, groups: map<string, seq<Record>>, order: seq<string>): Sums
    requires NonEmptyGroups(groups) && Covers(groups, order)
    decreases |order|
  {
    if order == [] then Sums(bpc)
    else
      var g := groups[order[0]];
      match AddRatios(bpc, g[1..], g[0].size)
      case Fails(f) => Fails(f)
      case Sums(b) => AccumulateOf(b, groups, order[1..])
  }

  /** What one group adds to suffix `s`: the ratios of its records after the first. */
  function GroupContribution(g: seq<Record>, s: string): real
    requires |g| > 0
  {
    Contribution(g[1..], g[0].size, s)
  }

  /** The sum of GroupContribution over the groups of `order`. */
  function Total(groups: map<string, seq<Record>>, order: seq<string>, s: string): real
    requires NonEmptyGroups(groups) && Covers(groups, order)
    decreases |order|
  {
    if order == [] then 0.0 else GroupContribution(groups[order[0]], s) + Total(groups, order[1..], s)
  }

  predicate GroupDefined(keys: set<string>, g: seq<Record>)
    requires |g| > 0
  {
    RatiosDefined(keys, g[1..], g[0].size)
  }

  /** The keys of an order are its first key and the keys of its tail. */
  lemma CoversTail(groups: map<string, seq<Record>>, order: seq<string>)
    requires Covers(groups, order) && order != []
    ensures Covers(groups, order[1..])
    ensures forall k :: k in order <==> k == order[0] || k in order[1..]
  {
    assert order == [order[0]] + order[1..];
  }

  /** Removing the key at `i` leaves keys of the order. */
  lemma RemoveKeys(order: seq<string>, i: nat)
    requires i < |order|
    ensures forall k :: k in order[..i] + order[i + 1..] ==> k in order
    ensures i > 0 ==> order[..i] + order[i + 1..] == [order[0]] + (order[1..][..i - 1] + order[1..][i..])
  {
    assert order == order[..i] + [order[i]] + order[i + 1..];
    if i > 0 {
      assert order[..i] == [order[0]] + order[1..][..i - 1];
      assert order[i + 1..] == order[1..][i..];
    }
  }

  /** Taking the same key out of two orders with the same multiset of keys. */
  lemma RemoveSame(o1: seq<string>, o2: seq<string>, i: nat)
    requires multiset(o1) == multiset(o2) && o1 != [] && i < |o2| && o2[i] == o1[0]
    ensures multiset(o1[1..]) == multiset(o2[..i] + o2[i + 1..])
  {
    var x := o1[0];
    var o2' := o2[..i] + o2[i + 1..];
    assert o2 == o2[..i] + [o2[i]] + o2[i + 1..];
    assert multiset(o2) == multiset(o2[..i]) + multiset{x} + multiset(o2[i + 1..]);
    assert multiset(o2') == multiset(o2[..i]) + multiset(o2[i + 1..]);
    assert o1 == [x] + o1[1..];
    assert multiset(o1) == multiset{x} + multiset(o1[1..]);
    forall y
      ensures multiset(o1[1..])[y] == multiset(o2')[y]
    {
      assert multiset(o1)[y] == multiset{x}[y] + multiset(o1[1..])[y];
      assert multiset(o2)[y] == multiset(o2')[y] + multiset{x}[y];
    }
  }

  /** `after` holds the same suffixes as `before`, each increased by the total the groups of `order` contribute. */
  ghost predicate AddsTotals(after: map<string, real>, before: map<string, real>, groups: map<string, seq<Record>>, order: seq<string>)
    requires NonEmptyGroups(groups) && Covers(groups, order)
  {
    after.Keys == before.Keys && forall s :: s in before ==> after[s] == before[s] + Total(groups, order, s)
  }

  /** Accumulation adds every group's contribution, unless some group raises. */
  lemma {:induction false} AccumulateClosed(bpc: map<string, real>, groups: map<string, seq<Record>>, order: seq<string>)
    requires NonEmptyGroups(groups) && Covers(groups, order)
    ensures AccumulateOf(bpc, groups, order).Sums? <==> forall k :: k in order ==> GroupDefined(bpc.Keys, groups[k])
    ensures AccumulateOf(bpc, groups, order).Sums? ==> AddsTotals(AccumulateOf(bpc, groups, order).bpc, bpc, groups, order)
    decreases |order|
  {
    if order != [] {
      var g := groups[order[0]];
      AddRatiosClosed(bpc, g[1..], g[0].size);
      CoversTail(groups, order);
      if AddRatios(bpc, g[1..], g[0].size).Sums? {
        var b := AddRatios(bpc, g[1..], g[0].size).bpc;
        AccumulateClosed(b, groups, order[1..]);
        if AccumulateOf(b, groups, order[1..]).Sums? {
          var r := AccumulateOf(b, groups, order[1..]).bpc;
          forall s | s in bpc
            ensures r[s] == bpc[s] + Total(groups, order, s)
          {
            assert b[s] == bpc[s] + GroupContribution(g, s);
          }
        }
      }
    }
  }

  /** Taking out one group from the order takes out its contribution. */
  lemma {:induction false} TotalRemove(groups: map<string, seq<Record>>, order: seq<string>, i: nat, s: string)
    requires NonEmptyGroups(groups) && Covers(groups, order) && i < |order|
    ensures Covers(groups, order[..i] + order[i + 1..])
    ensures Total(groups, order, s) == GroupContribution(groups[order[i]], s) + Total(groups, order[..i] + order[i + 1..], s)
    decreases i
  {
    RemoveKeys(order, i);
    var rest := order[..i] + order[i + 1..];
    CoversTail(groups, order);
    if i == 0 {
      assert rest == order[1..];
    } else {
      var tail := order[1..];
      TotalRemove(groups, tail, i - 1, s);
      assert rest[1..] == tail[..i - 1] + tail[i..];
    }
  }

  /** The total does not depend on the order in which the groups are visited. */
  lemma {:induction false} TotalPermutation(groups: map<string, seq<Record>>, o1: seq<string>, o2: seq<string>, s: string)
    requires NonEmptyGroups(groups) && Covers(groups, o1) && Covers(groups, o2)
    requires multiset(o1) == multiset(o2)
    ensures Total(groups, o1, s) == Total(groups, o2, s)
    decreases |o1|
  {
    if o1 == [] {
      assert |multiset(o2)| == 0;
    } else {
      assert o1[0] in multiset(o2);
      var i :| 0 <= i < |o2| && o2[i] == o1[0];
      TotalRemove(groups, o2, i, s);
      RemoveSame(o1, o2, i);
      CoversTail(groups, o1);
      TotalPermutation(groups, o1[1..], o2[..i] + o2[i + 1..], s);
    }
  }

  /**
   * Python 2 visits the dictionary in an order the script does not
   * control; any two orders give the same sums, or both raise.
   */
  lemma AccumulateOrderFree(bpc: map<string, real>, groups: map<string, seq<Record>>, o1: seq<string>, o2: seq<string>)
    requires NonEmptyGroups(groups) && Covers(groups, o1) && Covers(groups, o2)
    requires multiset(o1) == multiset(o2)
    ensures AccumulateOf(bpc, groups, o1).Sums? <==> AccumulateOf(bpc, groups, o2).Sums?
    ensures AccumulateOf(bpc, groups, o1).Sums? ==> AccumulateOf(bpc, groups, o1) == AccumulateOf(bpc, groups, o2)
  {
    AccumulateClosed(bpc, groups, o1);
    AccumulateClosed(bpc, groups, o2);
    assert forall k :: k in o1 <==> k in o2 by {
      forall k
        ensures k in o1 <==> k in o2
      {
        assert k in o1 <==> k in multiset(o1);
        assert k in o2 <==> k in multiset(o2);
      }
    }
    forall s | s in bpc
      ensures Total(groups, o1, s) == Total(groups, o2, s)
    {
      TotalPermutation(groups, o1, o2, s);
    }
    if AccumulateOf(bpc, groups, o1).Sums? {
      var r1 := AccumulateOf(bpc, groups, o1).bpc;
      var r2 := AccumulateOf(bpc, groups, o2).bpc;
      assert r1.Keys == r2.Keys;
      assert forall s :: s in r1 ==> r1[s] == r2[s];
      assert r1 == r2;
    }
  }

  /** The averages printed: each suffix's sum divided by the number of complete groups. */
  function Averages(bpc: map<string, real>, n: nat): (avg: map<string, real>)
    requires n > 0
    ensures avg.Keys == bpc.Keys
    ensures forall s :: s in bpc ==> avg[s] * n as real == bpc[s]
  {
    map s | s in bpc :: bpc[s] / n as real
  }

  /** avg_bpc before the loop: every suffix of the group displayed first starts at 0. */
  function InitialSums(g: seq<Record>): (bpc: map<string, real>)
    ensures bpc.Keys == set j | 0 <= j < |g| :: g[j].suffix
    ensures forall s :: s in bpc ==> bpc[s] == 0.0
  {
    var keys := set j | 0 <= j < |g| :: g[j].suffix;
    map s | s in keys :: 0.0
  }

  // ---------------------------------------------------------------------
  // The empty-result guard
  // ---------------------------------------------------------------------

  /** What the script does after the guard: report no files, or display from one group. */
  datatype Header = NoFiles | FirstGroup(key: string) | HeaderIndexError

  /** list.sort() sorts in place and returns None. */
  function SortResult(keys: seq<string>): Option<seq<string>>
  {
    None
  }

  /** The guard as written: the length of [keys.sort()], a list holding one None. */
  predicate EmptyGuardAsWritten(keys: seq<string>)
  {
    |[SortResult(keys)]| == 0
  }

  /** Lines 40 to 46 as written: the guard, then complete_files.keys()[0]. */
  function HeaderAsWritten(keys: seq<string>): Header
  {
    if EmptyGuardAsWritten(keys) then NoFiles
    else if keys == [] then HeaderIndexError
    else FirstGroup(keys[0])
  }

  /** With no complete group "No files found" is never printed; the script fails on keys()[0] instead. */
  lemma HeaderAsWrittenFails(keys: seq<string>)
    ensures HeaderAsWritten(keys) != NoFiles
    ensures keys == [] ==> HeaderAsWritten(keys) == HeaderIndexError
  {
    assert |[SortResult(keys)]| == 1;
  }

  /** The guard as intended: no complete group. */
  predicate EmptyGuard(keys: seq<string>)
  {
    |keys| == 0
  }

  function HeaderOf(keys: seq<string>): Header
  {
    if EmptyGuard(keys) then NoFiles else FirstGroup(keys[0])
  }

  /** The intended guard reports "No files found" exactly when there is no group, and never indexes an empty list. */
  lemma HeaderReportsEmpty(keys: seq<string>)
    ensures HeaderOf(keys) == NoFiles <==> keys == []
    ensures HeaderOf(keys) != HeaderIndexError
    ensures keys != [] ==> HeaderOf(keys) == HeaderAsWritten(keys)
  {
    assert |[SortResult(keys)]| == 1;
  }

  // ---------------------------------------------------------------------
  // The script's state and its phases
  // ---------------------------------------------------------------------

  /** An order in which Python may visit the keys of `m`. */
  ghost predicate Enumerates(order: seq<string>, m: map<string, seq<Record>>)
  {
    Distinct(order) && forall k :: k in order <==> k in m
  }

  /** The complete groups among the keys `done`. */
  ghost function CompleteAmong(files: map<string, seq<Record>>, done: set<string>, n: nat): map<string, seq<Record>>
  {
    map k | k in done && k in files && |files[k]| == n :: files[k]
  }

  /** The incomplete groups among the keys `done`. */
  ghost function MissingAmong(files: map<string, seq<Record>>, done: set<string>, n: nat): set<string>
  {
    set k | k in done && k in files && |files[k]| != n
  }

  lemma SelectStep(files: map<string, seq<Record>>, done: set<string>, key: string, n: nat)
    requires key in files
    ensures |files[key]| == n ==> CompleteAmong(files, done + {key}, n) == CompleteAmong(files, done, n)[key := files[key]]
    ensures |files[key]| != n ==> CompleteAmong(files, done + {key}, n) == CompleteAmong(files, done, n)
    ensures |files[key]| != n ==> MissingAmong(files, done + {key}, n) == MissingAmong(files, done, n) + {key}
    ensures |files[key]| == n ==> MissingAmong(files, done + {key}, n) == MissingAmong(files, done, n)
  {
  }

  lemma CompleteAmongAll(files: map<string, seq<Record>>, n: nat)
    ensures CompleteAmong(files, files.Keys, n) == CompleteOf(files, n)
    ensures MissingAmong(files, files.Keys, n) == MissingOf(files, n)
  {
  }

  /** The groups with the keys `done` marked and the others as they were. */
  ghost function MarkedAmong(c: map<string, seq<Record>>, done: set<string>): map<string, seq<Record>>
    requires forall k :: k in done && k in c ==> |c[k]| > 0
  {
    map k | k in c :: if k in done then Marked(c[k]) else c[k]
  }

  lemma MarkStep(c: map<string, seq<Record>>, done: set<string>, key: string)
    requires key in c && |c[key]| >= 2
    requires forall k :: k in done && k in c ==> |c[k]| > 0
    ensures MarkedAmong(c, done + {key}) == MarkedAmong(c, done)[key := Marked(c[key])]
  {
  }

  lemma MarkedAmongAll(c: map<string, seq<Record>>)
    requires NonEmptyGroups(c)
    ensures MarkedAmong(c, c.Keys) == MarkGroups(c)
  {
  }

  /** The dictionaries files, complete_files and avg_bpc, and the groups reported incomplete. */
  class SummaryScript {
    var files: map<string, seq<Record>>
    var complete: map<string, seq<Record>>
    var missing: set<string>
    var avgBpc: map<string, real>

    constructor()
      ensures files == map[] && complete == map[] && missing == {} && avgBpc == map[]
    {
      files := map[];
      complete := map[];
      missing := {};
      avgBpc := map[];
    }

    /** add_files(suffix) over the directory listing `all`. */
    method AddFiles(all: seq<string>, sizes: map<string, nat>, suffix: string)
      requires Sized(all, sizes)
      modifies this
      ensures files == AddFilesOf(old(files), all, sizes, suffix)
      ensures complete == old(complete) && missing == old(missing) && avgBpc == old(avgBpc)
    {
      var i := 0;
      while i < |all|
        invariant 0 <= i <= |all|
        invariant Sized(all[i..], sizes)
        invariant AddFilesOf(files, all[i..], sizes, suffix) == AddFilesOf(old(files), all, sizes, suffix)
        invariant complete == old(complete) && missing == old(missing) && avgBpc == old(avgBpc)
        decreases |all| - i
      {
        var file := all[i];
        assert all[i..][0] == file && all[i..][1..] == all[i + 1..];
        ghost var before := files;
        if EndsWith(file, suffix) {
          var withoutSuffix := file[..|file| - |suffix|];
          var size := sizes[file];
          assert Lookup(files, withoutSuffix) == if withoutSuffix in files then files[withoutSuffix] else [];
          if withoutSuffix in files {
            files := files[withoutSuffix := files[withoutSuffix] + [Record(suffix, size, 0)]];
            assert files == AddFile(before, file, sizes[file], suffix);
          } else {
            files := files[withoutSuffix := [Record(suffix, size, 0)]];
            assert [] + [Record(suffix, size, 0)] == [Record(suffix, size, 0)];
            assert files == AddFile(before, file, sizes[file], suffix);
          }
        } else {
          assert files == AddFile(before, file, sizes[file], suffix);
        }
        i := i + 1;
      }
    }

    /** The loop calling add_files('.' + suffix) for each suffix argument. */
    method Group(all: seq<string>, sizes: map<string, nat>, sufs: seq<string>)
      requires Sized(all, sizes)
      modifies this
      ensures files == GroupsOf(old(files), all, sizes, sufs)
      ensures complete == old(complete) && missing == old(missing) && avgBpc == old(avgBpc)
    {
      var i := 0;
      while i < |sufs|
        invariant 0 <= i <= |sufs|
        invariant GroupsOf(files, all, sizes, sufs[i..]) == GroupsOf(old(files), all, sizes, sufs)
        invariant complete == old(complete) && missing == old(missing) && avgBpc == old(avgBpc)
        decreases |sufs| - i
      {
        assert sufs[i..][0] == sufs[i] && sufs[i..][1..] == sufs[i + 1..];
        AddFiles(all, sizes, "." + sufs[i]);
        i := i + 1;
      }
    }

    /** The completeness filter: complete groups are copied, the others reported. */
    method SelectComplete(n: nat)
      modifies this
      ensures files == old(files) && avgBpc == old(avgBpc)
      ensures complete == old(complete) + CompleteOf(files, n)
      ensures missing == old(missing) + MissingOf(files, n)
    {
      var keys := files.Keys;
      ghost var done: set<string> := {};
      while keys != {}
        invariant files == old(files) && avgBpc == old(avgBpc)
        invariant keys + done == files.Keys && keys !! done
        invariant complete == old(complete) + CompleteAmong(files, done, n)
        invariant missing == old(missing) + MissingAmong(files, done, n)
        decreases keys
      {
        var key :| key in keys;
        SelectStep(files, done, key, n);
        if |files[key]| != n {
          missing := missing + {key};
        } else {
          complete := complete[key := files[key]];
        }
        keys := keys - {key};
        done := done + {key};
      }
      assert done == files.Keys;
      CompleteAmongAll(files, n);
    }

    /** avg_bpc[rec[0]] = 0 for each record of the group displayed first. */
    method InitSums(first: string)
      requires first in complete
      modifies this
      ensures files == old(files) && complete == old(complete) && missing == old(missing)
      ensures avgBpc == InitialSums(complete[first])
    {
      var g := complete[first];
      avgBpc := map[];
      for j := 0 to |g|
        invariant avgBpc.Keys == set i | 0 <= i < j :: g[i].suffix
        invariant forall s :: s in avgBpc ==> avgBpc[s] == 0.0
        invariant files == old(files) && complete == old(complete) && missing == old(missing)
      {
        assert (set i | 0 <= i < j + 1 :: g[i].suffix) == (set i | 0 <= i < j :: g[i].suffix) + {g[j].suffix};
        avgBpc := avgBpc[g[j].suffix := 0.0];
      }
    }

    /** The marking loops over every complete group; false when a group is too short to seed the search. */
    method MarkAll() returns (ok: bool)
      modifies this
      ensures files == old(files) && missing == old(missing) && avgBpc == old(avgBpc)
      ensures ok <==> forall k :: k in old(complete) ==> |old(complete)[k]| >= 2
      ensures ok ==> NonEmptyGroups(old(complete)) && complete == MarkGroups(old(complete))
    {
      ghost var c0 := complete;
      var keys := complete.Keys;
      ghost var done: set<string> := {};
      while keys != {}
        invariant files == old(files) && missing == old(missing) && avgBpc == old(avgBpc) && c0 == old(complete)
        invariant keys + done == c0.Keys && keys !! done
        invariant forall k :: k in done ==> |c0[k]| >= 2
        invariant complete == MarkedAmong(c0, done)
        decreases keys
      {
        var key :| key in keys;
        var marked := MarkBest(complete[key]);
        if marked.None? {
          return false;
        }
        MarkStep(c0, done, key);
        complete := complete[key := marked.value];
        keys := keys - {key};
        done := done + {key};
      }
      assert done == c0.Keys;
      MarkedAmongAll(c0);
      return true;
    }

    /** The inner loop of the display, over the records after the group's first. */
    method AddGroup(g: seq<Record>) returns (r: Option<Failure>)
      requires |g| > 0
      modifies this
      ensures files == old(files) && complete == old(complete) && missing == old(missing)
      ensures r.None? <==> AddRatios(old(avgBpc), g[1..], g[0].size).Sums?
      ensures r.None? ==> avgBpc == AddRatios(old(avgBpc), g[1..], g[0].size).bpc
      ensures r.Some? ==> AddRatios(old(avgBpc), g[1..], g[0].size) == Fails(r.value) && r.value != IndexError
    {
      var base := g[0].size;
      var j := 1;
      while j < |g|
        invariant 1 <= j <= |g|
        invariant AddRatios(avgBpc, g[j..], base) == AddRatios(old(avgBpc), g[1..], base)
        invariant files == old(files) && complete == old(complete) && missing == old(missing)
        decreases |g| - j
      {
        assert g[j..][0] == g[j] && g[j..][1..] == g[j + 1..];
        if base == 0 {
          return Some(ZeroDivisionError);
        }
        var rec := g[j];
        var avg := Ratio(rec.size, base);
        if rec.suffix !in avgBpc {
          return Some(KeyError);
        }
        avgBpc := avgBpc[rec.suffix := avgBpc[rec.suffix] + avg];
        j := j + 1;
      }
      return None;
    }

    /** The display loop's accumulation of ratios, visiting the groups in `order`. */
    method Accumulate(order: seq<string>) returns (r: Option<Failure>)
      requires NonEmptyGroups(complete) && Covers(complete, order)
      modifies this
      ensures files == old(files) && complete == old(complete) && missing == old(missing)
      ensures r.None? <==> AccumulateOf(old(avgBpc), complete, order).Sums?
      ensures r.None? ==> avgBpc == AccumulateOf(old(avgBpc), complete, order).bpc
      ensures r.Some? ==> AccumulateOf(old(avgBpc), complete, order) == Fails(r.value) && r.value != IndexError
    {
      var i := 0;
      while i < |order|
        invariant 0 <= i <= |order|
        invariant files == old(files) && complete == old(complete) && missing == old(missing)
        invariant Covers(complete, order[i..])
        invariant AccumulateOf(avgBpc, complete, order[i..]) == AccumulateOf(old(avgBpc), complete, order)
        decreases |order| - i
      {
        assert order[i..][0] == order[i] && order[i..][1..] == order[i + 1..];
        assert Covers(complete, order[i + 1..]) by {
          assert forall k :: k in order[i + 1..] ==> k in order[i..];
        }
        var failure := AddGroup(complete[order[i]]);
        if failure.Some? {
          return failure;
        }
        i := i + 1;
      }
      return None;
    }
  }

  /** complete_files.keys(): an order Python chooses. */
  method KeyOrder(m: map<string, seq<Record>>) returns (order: seq<string>)
    ensures Enumerates(order, m)
  {
    order := [];
    var keys := m.Keys;
    while keys != {}
      invariant Distinct(order)
      invariant forall k :: k in order <==> k in m && k !in keys
      invariant keys <= m.Keys
      decreases keys
    {
      var key :| key in keys;
      order := order + [key];
      keys := keys - {key};
    }
  }

  /** What the script prints, in outline. */
  datatype Outcome =
    | Report(order: seq<string>, missing: set<string>, marked: map<string, seq<Record>>, averages: map<string, real>)
    | NoFilesFound(missing: set<string>)
    | Crashed(failure: Failure)

  /** The complete groups the script finds in the listing `all` for the suffix arguments `sufs`. */
  ghost function Completed(all: seq<string>, sizes: map<string, nat>, sufs: seq<string>): map<string, seq<Record>>
    requires Sized(all, sizes)
  {
    CompleteOf(GroupsOf(map[], all, sizes, sufs), |sufs|)
  }

  /** Each group after the marking loops. */
  function MarkGroups(c: map<string, seq<Record>>): (marked: map<string, seq<Record>>)
    requires NonEmptyGroups(c)
    ensures marked.Keys == c.Keys && NonEmptyGroups(marked)
  {
    map k | k in c :: Marked(c[k])
  }

  /**
   * A report in which the groups of `c` are displayed in `order`, each with
   * its best compressor marked, and the averages are the accumulated ratios
   * divided by the number of groups.
   */
  ghost predicate ReportOf(c: map<string, seq<Record>>, order: seq<string>, marked: map<string, seq<Record>>, averages: map<string, real>)
  {
    Enumerates(order, c) && |order| > 0 && NonEmptyGroups(c) && marked == MarkGroups(c) &&
    var acc := AccumulateOf(InitialSums(marked[order[0]]), marked, order);
    acc.Sums? && averages == Averages(acc.bpc, |c|)
  }

  /** The script up to its completeness filter. */
  method Collect(all: seq<string>, sizes: map<string, nat>, sufs: seq<string>) returns (script: SummaryScript)
    requires Sized(all, sizes)
    ensures fresh(script)
    ensures script.complete == Completed(all, sizes, sufs)
    ensures script.missing == MissingOf(GroupsOf(map[], all, sizes, sufs), |sufs|)
  {
    script := new SummaryScript();
    script.Group(all, sizes, sufs);
    script.SelectComplete(|sufs|);
  }

  /**
   * The whole script on the directory listing `all` (with the file sizes)
   * and the suffix arguments `sufs`, with the intended empty-result guard.
   */
  method Summarise(all: seq<string>, sizes: map<string, nat>, sufs: seq<string>) returns (out: Outcome)
    requires Sized(all, sizes) && Distinct(all)
    ensures out.NoFilesFound? <==> Completed(all, sizes, sufs) == map[]
    ensures out == Crashed(IndexError) <==> Completed(all, sizes, sufs) != map[] && |sufs| < 2
    ensures out.Report? || out.NoFilesFound? ==> out.missing == MissingOf(GroupsOf(map[], all, sizes, sufs), |sufs|)
    ensures out.Report? ==> |sufs| >= 2 && ReportOf(Completed(all, sizes, sufs), out.order, out.marked, out.averages)
  {
    var script := Collect(all, sizes, sufs);
    ghost var c := script.complete;
    var order := KeyOrder(script.complete);
    var header := HeaderOf(order);
    HeaderReportsEmpty(order);
    if header.NoFiles? {
      assert c.Keys == {};
      return NoFilesFound(script.missing);
    }
    assert order[0] in c;
    var ok := script.MarkAll();
    if !ok {
      return Crashed(IndexError);
    }
    assert |sufs| >= 2 by {
      assert |c[order[0]]| >= 2;
    }
    assert NonEmptyGroups(c);
    assert script.complete == MarkGroups(c);
    script.InitSums(order[0]);
    var failure := script.Accumulate(order);
    if failure.Some? {
      return Crashed(failure.value);
    }
    assert |script.complete| == |c| by {
      assert script.complete.Keys == c.Keys;
    }
    out := Report(order, script.missing, script.complete, Averages(script.avgBpc, |script.complete|));
    assert ReportOf(c, order, script.complete, out.averages);
  }
}
