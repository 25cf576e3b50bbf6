/**
 * The `xmlchar_*` string functions: strlen, strcpy, strncpy, strcat,
 * strncat, strcmp and strncmp over zero-terminated arrays of characters.
 *
 * A character is its integer value and 0 is the terminator.  In the build
 * modelled here `XmlChar` is the plain `char` type, so the `xmlchar_cstr*`
 * variants (which read a `char *` source and cast each character to
 * `XmlChar`) perform the same operations as their `xmlchar_str*` twins.
 */
module XmlChar {

  // ---------------------------------------------------------------------
  // Zero-terminated strings
  // ---------------------------------------------------------------------

  /** Some position of `s` holds the terminator. */
  predicate Terminated(s: seq<int>)
  {
    exists i :: 0 <= i < |s| && s[i] == 0
  }

  /** No character of `c` is the terminator. */
  predicate NoZero(c: seq<int>)
  {
    forall j :: 0 <= j < |c| ==> c[j] != 0
  }

  /** The index of the first terminator: the C length of the string. */
  function Length(s: seq<int>): (n: nat)
    requires Terminated(s)
    ensures n < |s| && s[n] == 0
    ensures forall j :: 0 <= j < n ==> s[j] != 0
    decreases |s|
  {
    if s[0] == 0 then 0
    else
      assert Terminated(s[1..]) by {
        var i :| 0 <= i < |s| && s[i] == 0;
        assert s[1..][i - 1] == 0;
      }
      1 + Length(s[1..])
  }

  /** The characters before the terminator. */
  function Content(s: seq<int>): (c: seq<int>)
    requires Terminated(s)
    ensures NoZero(c) && |c| == Length(s) && c == s[..Length(s)]
  {
    s[..Length(s)]
  }

  /** A terminator at `n` with none before it fixes the length. */
  lemma LengthAt(s: seq<int>, n: nat)
    requires n < |s| && s[n] == 0
    requires forall j :: 0 <= j < n ==> s[j] != 0
    ensures Terminated(s) && Length(s) == n
  {
    assert s[n] == 0;
  }

  /** A string whose first characters are `c` and then a terminator has content `c`. */
  lemma TerminatedAfter(s: seq<int>, c: seq<int>)
    requires |c| < |s| && s[..|c|] == c && NoZero(c) && s[|c|] == 0
    ensures Terminated(s) && Content(s) == c
  {
    forall j | 0 <= j < |c|
      ensures s[j] != 0
    {
      assert s[j] == c[j];
    }
    LengthAt(s, |c|);
  }

  /** `head`, then the first `i` characters of a string, then a terminator. */
  lemma ConcatTerminated(s: seq<int>, head: seq<int>, src: seq<int>, i: nat)
    requires Terminated(src) && i <= Length(src) && NoZero(head)
    requires |head| + i < |s| && s[..|head|] == head && s[|head|..|head| + i] == src[..i]
    requires s[|head| + i] == 0
    ensures Terminated(s) && Content(s) == head + src[..i]
  {
    assert s[..|head| + i] == head + src[..i];
    TerminatedAfter(s, head + src[..i]);
  }

  function Min(a: nat, b: nat): nat
  {
    if a <= b then a else b
  }

  // ---------------------------------------------------------------------
  // Length and copying
  // ---------------------------------------------------------------------

  /** xmlchar_strlen: 0 for a null string, else the index of the first 0. */
  method StrLen(str: array?<int>) returns (n: nat)
    requires str != null ==> Terminated(str[..])
    ensures str == null ==> n == 0
    ensures str != null ==> n == Length(str[..]) && str[n] == 0
  {
    if str == null {
      return 0;
    }
    n := 0;
    while str[n] != 0
      invariant n <= Length(str[..])
      decreases Length(str[..]) - n
    {
      n := n + 1;
    }
  }

  /** The first `n` characters of a content (all of it when shorter). */
  function Prefix(a: seq<int>, n: nat): (p: seq<int>)
    ensures |p| == Min(n, |a|) && p == a[..Min(n, |a|)]
  {
    a[..Min(n, |a|)]
  }

  /** `d` with `w` written over it from index `at`. */
  function Splice(d: seq<int>, at: nat, w: seq<int>): (r: seq<int>)
    requires at + |w| <= |d|
    ensures |r| == |d| && r[at..at + |w|] == w
  {
    d[..at] + w + d[at + |w|..]
  }

  /** What the bounded copies write: at most `n` characters, and the terminator only if fewer were written. */
  function BoundedCopy(src: seq<int>, n: nat): (w: seq<int>)
    requires Terminated(src)
    ensures |w| == Min(n, Length(src)) + (if Length(src) < n then 1 else 0)
  {
    Prefix(Content(src), n) + (if Length(src) < n then [0] else [])
  }

  /** One more character of `t` written after `d[..j]` and `t[..i]`. */
  lemma WriteNext(s: seq<int>, d: seq<int>, j: nat, t: seq<int>, i: nat)
    requires j + i < |d| && i < |t| && s == d[..j] + t[..i] + d[j + i..]
    ensures s[j + i := t[i]] == d[..j] + t[..i + 1] + d[j + i + 1..]
  {
    assert t[..i + 1] == t[..i] + [t[i]];
  }

  /**
   * The copying loop shared by strcpy and strcat, with the state after it:
   * the whole content of `src` sits at `j` and nothing else has changed.
   */
  method CopyAll(dest: array<int>, src: array<int>, j: nat) returns (i: nat)
    requires dest != src
    requires Terminated(src[..]) && j + Length(src[..]) < dest.Length
    modifies dest
    ensures i == Length(src[..])
    ensures dest[..] == old(dest[..j]) + Content(src[..]) + old(dest[j + i..])
  {
    ghost var len := Length(src[..]);
    ghost var d := dest[..];
    i := 0;
    while src[i] != 0
      invariant i <= len
      invariant dest[..] == d[..j] + src[..i] + d[j + i..]
      decreases len - i
    {
      ghost var before := dest[..];
      WriteNext(before, d, j, src[..], i);
      dest[j + i] := src[i];
      assert dest[..] == before[j + i := src[i]];
      i := i + 1;
    }
  }

  /** The copying loop shared by strncpy and strncat: it also stops after `n` characters. */
  method CopyAtMost(dest: array<int>, src: array<int>, j: nat, n: nat) returns (i: nat)
    requires dest != src
    requires Terminated(src[..]) && j + Min(n, Length(src[..])) <= dest.Length
    modifies dest
    ensures i == Min(n, Length(src[..]))
    ensures dest[..] == old(dest[..j]) + Prefix(Content(src[..]), n) + old(dest[j + i..])
  {
    ghost var len := Length(src[..]);
    ghost var d := dest[..];
    i := 0;
    while src[i] != 0 && i < n
      invariant i <= len && i <= n
      invariant dest[..] == d[..j] + src[..i] + d[j + i..]
      decreases len - i
    {
      ghost var before := dest[..];
      WriteNext(before, d, j, src[..], i);
      dest[j + i] := src[i];
      assert dest[..] == before[j + i := src[i]];
      i := i + 1;
    }
    assert src[..i] == Prefix(Content(src[..]), n);
  }

  /** Writing the terminator after a copied run. */
  lemma Terminate(s: seq<int>, d: seq<int>, j: nat, w: seq<int>)
    requires j + |w| < |d| && s == d[..j] + w + d[j + |w|..]
    ensures s[j + |w| := 0] == Splice(d, j, w + [0])
  {
  }

  /**
   * xmlchar_strcpy / xmlchar_cstrcpy: copies `src` with its terminator to
   * the front of `dest` and returns `dest`.
   */
  method StrCpy(dest: array<int>, src: array<int>) returns (r: array<int>)
    requires dest != src
    requires Terminated(src[..]) && Length(src[..]) < dest.Length
    modifies dest
    ensures r == dest
    ensures dest[..] == Splice(old(dest[..]), 0, Content(src[..]) + [0])
    ensures Terminated(dest[..]) && Content(dest[..]) == Content(src[..])
  {
    var i := CopyAll(dest, src, 0);
    Terminate(dest[..], old(dest[..]), 0, Content(src[..]));
    ghost var before := dest[..];
    dest[i] := 0;
    assert dest[..] == before[i := 0];
    TerminatedAfter(dest[..], Content(src[..]));
    return dest;
  }

  /**
   * xmlchar_strncpy / xmlchar_cstrncpy: copies the first min(n, length)
   * characters and writes a terminator only when fewer than `n` were copied.
   */
  method StrNCpy(dest: array<int>, src: array<int>, n: nat) returns (r: array<int>)
    requires dest != src
    requires Terminated(src[..]) && |BoundedCopy(src[..], n)| <= dest.Length
    modifies dest
    ensures r == dest
    ensures dest[..] == Splice(old(dest[..]), 0, BoundedCopy(src[..], n))
    ensures Length(src[..]) < n ==> Terminated(dest[..]) && Content(dest[..]) == Content(src[..])
  {
    var i := CopyAtMost(dest, src, 0, n);
    ghost var w := Prefix(Content(src[..]), n);
    if i < n {
      assert w == Content(src[..]) && BoundedCopy(src[..], n) == w + [0];
      Terminate(dest[..], old(dest[..]), 0, w);
      ghost var before := dest[..];
      dest[i] := 0;
      assert dest[..] == before[i := 0];
      TerminatedAfter(dest[..], w);
    } else {
      assert BoundedCopy(src[..], n) == w;
    }
    return dest;
  }

  // ---------------------------------------------------------------------
  // Concatenation
  // ---------------------------------------------------------------------

  /**
   * xmlchar_strcat / xmlchar_cstrcat: writes `src` from the first 0 of
   * `dest` onwards and terminates the result.
   */
  method StrCat(dest: array<int>, src: array<int>) returns (r: array<int>)
    requires dest != src
    requires Terminated(dest[..]) && Terminated(src[..])
    requires Length(dest[..]) + Length(src[..]) < dest.Length
    modifies dest
    ensures r == dest
    ensures dest[..] == Splice(old(dest[..]), old(Length(dest[..])), Content(src[..]) + [0])
    ensures Terminated(dest[..]) && Content(dest[..]) == old(Content(dest[..])) + Content(src[..])
  {
    ghost var head := Content(dest[..]);
    var j := 0;
    while dest[j] != 0
      invariant j <= |head|
      decreases |head| - j
    {
      j := j + 1;
    }
    var i := CopyAll(dest, src, j);
    Terminate(dest[..], old(dest[..]), j, Content(src[..]));
    ghost var before := dest[..];
    dest[j + i] := 0;
    assert dest[..] == before[j + i := 0];
    assert dest[..j + i] == head + Content(src[..]);
    TerminatedAfter(dest[..], head + Content(src[..]));
    return dest;
  }

  /**
   * xmlchar_strncat / xmlchar_cstrncat: appends at most `n` characters of
   * `src` at the first 0 of `dest`, and terminates only if fewer than `n`
   * were appended.
   */
  method StrNCat(dest: array<int>, src: array<int>, n: nat) returns (r: array<int>)
    requires dest != src
    requires Terminated(dest[..]) && Terminated(src[..])
    requires Length(dest[..]) + |BoundedCopy(src[..], n)| <= dest.Length
    modifies dest
    ensures r == dest
    ensures dest[..] == Splice(old(dest[..]), old(Length(dest[..])), BoundedCopy(src[..], n))
    ensures Length(src[..]) < n ==>
              Terminated(dest[..]) && Content(dest[..]) == old(Content(dest[..])) + Content(src[..])
  {
    ghost var head := Content(dest[..]);
    var j := 0;
    while dest[j] != 0
      invariant j <= |head|
      decreases |head| - j
    {
      j := j + 1;
    }
    assert j == old(Length(dest[..]));
    var i := CopyAtMost(dest, src, j, n);
    ghost var w := Prefix(Content(src[..]), n);
    if i < n {
      assert w == Content(src[..]) && BoundedCopy(src[..], n) == w + [0];
      Terminate(dest[..], old(dest[..]), j, w);
      ghost var before := dest[..];
      dest[j + i] := 0;
      assert dest[..] == before[j + i := 0];
      assert dest[..] == Splice(old(dest[..]), j, BoundedCopy(src[..], n));
      assert dest[..j + i] == head + w;
      TerminatedAfter(dest[..], head + w);
    } else {
      assert BoundedCopy(src[..], n) == w;
    }
    return dest;
  }

  // ---------------------------------------------------------------------
  // Comparison
  // ---------------------------------------------------------------------

  /** Lexicographic order on contents, as -1, 0 or 1; a proper prefix is smaller. */
  function Compare(a: seq<int>, b: seq<int>): (r: int)
    ensures -1 <= r <= 1
  {
    if a == [] && b == [] then 0
    else if a == [] then -1
    else if b == [] then 1
    else if a[0] < b[0] then -1
    else if a[0] > b[0] then 1
    else Compare(a[1..], b[1..])
  }

  /** Compare is 0 exactly on equal contents. */
  lemma {:induction false} CompareZeroIff(a: seq<int>, b: seq<int>)
    ensures Compare(a, b) == 0 <==> a == b
  {
    if a != [] && b != [] && a[0] == b[0] {
      CompareZeroIff(a[1..], b[1..]);
      assert a == [a[0]] + a[1..];
      assert b == [b[0]] + b[1..];
    }
  }

  /** Swapping the arguments negates the result. */
  lemma {:induction false} CompareAntisymmetric(a: seq<int>, b: seq<int>)
    ensures Compare(a, b) == -Compare(b, a)
  {
    if a != [] && b != [] && a[0] == b[0] {
      CompareAntisymmetric(a[1..], b[1..]);
    }
  }

  /** The order is transitive. */
  lemma {:induction false} CompareTransitive(a: seq<int>, b: seq<int>, c: seq<int>)
    requires Compare(a, b) == -1 && Compare(b, c) == -1
    ensures Compare(a, c) == -1
  {
    if a != [] && b != [] && c != [] && a[0] == b[0] && b[0] == c[0] {
      CompareTransitive(a[1..], b[1..], c[1..]);
    }
  }

  /** Dropping a common first character leaves the comparison unchanged. */
  lemma CompareStep(a: seq<int>, b: seq<int>, i: nat)
    requires i < |a| && i < |b| && a[i] == b[i]
    ensures Compare(a[i..], b[i..]) == Compare(a[i + 1..], b[i + 1..])
  {
    assert a[i..][1..] == a[i + 1..];
    assert b[i..][1..] == b[i + 1..];
  }

  /**
   * xmlchar_strcmp / xmlchar_cstrcmp: a null string sorts below any other
   * and two nulls are equal; otherwise the contents are compared.
   */
  method StrCmp(s1: array?<int>, s2: array?<int>) returns (r: int)
    requires s1 != null ==> Terminated(s1[..])
    requires s2 != null ==> Terminated(s2[..])
    ensures s1 == null && s2 != null ==> r == -1
    ensures s1 != null && s2 == null ==> r == 1
    ensures s1 == null && s2 == null ==> r == 0
    ensures s1 != null && s2 != null ==> r == Compare(Content(s1[..]), Content(s2[..]))
  {
    if s1 == null && s2 != null {
      return -1;
    } else if s1 != null && s2 == null {
      return 1;
    } else if s1 == null && s2 == null {
      return 0;
    }
    ghost var a := Content(s1[..]);
    ghost var b := Content(s2[..]);
    var i := 0;
    while s1[i] != 0 && s2[i] != 0
      invariant i <= |a| && i <= |b|
      invariant Compare(a, b) == Compare(a[i..], b[i..])
      decreases |a| - i
    {
      assert s1[i] == a[i] && s2[i] == b[i];
      if s1[i] == s2[i] {
        CompareStep(a, b, i);
        i := i + 1;
      } else if s1[i] < s2[i] {
        return -1;
      } else {
        return 1;
      }
    }
    if s1[i] != 0 {
      assert i == |b| && i < |a|;
      return 1;
    } else if s2[i] != 0 {
      assert i == |a| && i < |b|;
      return -1;
    } else {
      assert a[i..] == [] && b[i..] == [];
      return 0;
    }
  }

  // ---------------------------------------------------------------------
  // Bounded comparison
  // ---------------------------------------------------------------------

  /**
   * The comparison xmlchar_strncmp computes.  After the first `n`
   * characters agree it still looks at position `n`: the result is 0 only
   * if both strings continue past `n` or both end together.
   */
  function NCompareAsWritten(a: seq<int>, b: seq<int>, n: nat): (r: int)
    ensures -1 <= r <= 1
  {
    if a != [] && b != [] && n > 0 then
      if a[0] == b[0] then NCompareAsWritten(a[1..], b[1..], n - 1)
      else if a[0] < b[0] then -1
      else 1
    else if a != [] && b != [] then 0
    else if a == [] && b == [] then 0
    else if b != [] then -1
    else 1
  }

  /** The bounded comparison strncmp promises: the first `n` characters only. */
  function NCompare(a: seq<int>, b: seq<int>, n: nat): (r: int)
    ensures -1 <= r <= 1
  {
    Compare(Prefix(a, n), Prefix(b, n))
  }

  /** When the result is 0 for the code as written. */
  lemma {:induction false} NCompareAsWrittenZeroIff(a: seq<int>, b: seq<int>, n: nat)
    ensures NCompareAsWritten(a, b, n) == 0 <==>
              (n < |a| && n < |b| && a[..n] == b[..n]) || (a == b && |a| <= n)
  {
    if a != [] && b != [] && n > 0 {
      if a[0] == b[0] {
        NCompareAsWrittenZeroIff(a[1..], b[1..], n - 1);
        assert a == [a[0]] + a[1..];
        assert b == [b[0]] + b[1..];
        if n < |a| && n < |b| {
          assert a[..n] == [a[0]] + a[1..][..n - 1];
          assert b[..n] == [b[0]] + b[1..][..n - 1];
        }
      } else if n < |a| && n < |b| {
        assert a[..n][0] != b[..n][0];
      }
    }
  }

  /** The intended bounded comparison is 0 exactly when the first `n` characters agree. */
  lemma NCompareZeroIff(a: seq<int>, b: seq<int>, n: nat)
    ensures NCompare(a, b, n) == 0 <==> Prefix(a, n) == Prefix(b, n)
  {
    CompareZeroIff(Prefix(a, n), Prefix(b, n));
  }

  /** With `n` past both ends, the bounded comparison is the full one. */
  lemma NCompareLong(a: seq<int>, b: seq<int>, n: nat)
    requires |a| <= n && |b| <= n
    ensures NCompare(a, b, n) == Compare(a, b)
  {
    assert Prefix(a, n) == a && Prefix(b, n) == b;
  }

  /** The code as written answers "shorter" for "a" against "ab" at n = 1. */
  lemma NCompareAsWrittenDiffers()
    ensures NCompareAsWritten([97], [97, 98], 1) == -1
    ensures NCompare([97], [97, 98], 1) == 0
  {
    assert NCompareAsWritten([97], [97, 98], 1) == NCompareAsWritten([], [98], 0);
    assert Prefix([97, 98], 1) == [97];
    assert Prefix([97], 1) == [97];
    CompareZeroIff([97], [97]);
  }

  /** As-written and intended agree except when exactly one string ends at `n`. */
  lemma {:induction false} NCompareAsWrittenAgrees(a: seq<int>, b: seq<int>, n: nat)
    requires (|a| == n) == (|b| == n)
    ensures NCompareAsWritten(a, b, n) == NCompare(a, b, n)
  {
    if a != [] && b != [] && n > 0 {
      assert Prefix(a, n) == [a[0]] + Prefix(a[1..], n - 1);
      assert Prefix(b, n) == [b[0]] + Prefix(b[1..], n - 1);
      if a[0] == b[0] {
        NCompareAsWrittenAgrees(a[1..], b[1..], n - 1);
        assert ([a[0]] + Prefix(a[1..], n - 1))[1..] == Prefix(a[1..], n - 1);
        assert ([b[0]] + Prefix(b[1..], n - 1))[1..] == Prefix(b[1..], n - 1);
      }
    } else if a != [] && b != [] {
      assert Prefix(a, n) == [] && Prefix(b, n) == [];
    } else if a == [] && b == [] {
    } else if a == [] {
      assert n > 0;
      assert Prefix(a, n) == [] && Prefix(b, n) != [];
    } else {
      assert n > 0;
      assert Prefix(b, n) == [] && Prefix(a, n) != [];
    }
  }

  /**
   * xmlchar_strncmp / xmlchar_cstrncmp as written: the loop also stops at
   * index `n`, and the result then depends on whether the strings end there.
   */
  method StrNCmp(s1: array?<int>, s2: array?<int>, n: nat) returns (r: int)
    requires s1 != null ==> Terminated(s1[..])
    requires s2 != null ==> Terminated(s2[..])
    ensures s1 == null && s2 != null ==> r == -1
    ensures s1 != null && s2 == null ==> r == 1
    ensures s1 == null && s2 == null ==> r == 0
    ensures s1 != null && s2 != null ==> r == NCompareAsWritten(Content(s1[..]), Content(s2[..]), n)
  {
    if s1 == null && s2 != null {
      return -1;
    } else if s1 != null && s2 == null {
      return 1;
    } else if s1 == null && s2 == null {
      return 0;
    }
    ghost var a := Content(s1[..]);
    ghost var b := Content(s2[..]);
    var i := 0;
    while s1[i] != 0 && s2[i] != 0 && i < n
      invariant i <= |a| && i <= |b| && i <= n
      invariant NCompareAsWritten(a, b, n) == NCompareAsWritten(a[i..], b[i..], n - i)
      decreases |a| - i
    {
      assert s1[i] == a[i] && s2[i] == b[i];
      if s1[i] == s2[i] {
        assert a[i..][1..] == a[i + 1..] && b[i..][1..] == b[i + 1..];
        i := i + 1;
      } else if s1[i] < s2[i] {
        return -1;
      } else {
        return 1;
      }
    }
    if s1[i] != 0 && s2[i] != 0 {
      return 0;
    } else if s1[i] == 0 && s2[i] == 0 {
      assert a[i..] == [] && b[i..] == [];
      return 0;
    }
    if s2[i] != 0 {
      assert a[i..] == [] && b[i..] != [];
      return -1;
    } else {
      assert a[i..] != [] && b[i..] == [];
      return 1;
    }
  }

  /** strncmp as intended: only the first `n` characters are compared. */
  method StrNCmpBounded(s1: array?<int>, s2: array?<int>, n: nat) returns (r: int)
    requires s1 != null ==> Terminated(s1[..])
    requires s2 != null ==> Terminated(s2[..])
    ensures s1 == null && s2 != null ==> r == -1
    ensures s1 != null && s2 == null ==> r == 1
    ensures s1 == null && s2 == null ==> r == 0
    ensures s1 != null && s2 != null ==> r == NCompare(Content(s1[..]), Content(s2[..]), n)
  {
    if s1 == null && s2 != null {
      return -1;
    } else if s1 != null && s2 == null {
      return 1;
    } else if s1 == null && s2 == null {
      return 0;
    }
    ghost var a := Prefix(Content(s1[..]), n);
    ghost var b := Prefix(Content(s2[..]), n);
    var i := 0;
    while i < n && s1[i] != 0 && s2[i] != 0
      invariant i <= |a| && i <= |b|
      invariant Compare(a, b) == Compare(a[i..], b[i..])
      decreases n - i
    {
      assert i < |a| && i < |b|;
      assert s1[i] == a[i] && s2[i] == b[i];
      if s1[i] == s2[i] {
        CompareStep(a, b, i);
        i := i + 1;
      } else if s1[i] < s2[i] {
        return -1;
      } else {
        return 1;
      }
    }
    if i == n {
      assert a[i..] == [] && b[i..] == [];
      return 0;
    } else if s1[i] == 0 && s2[i] == 0 {
      assert a[i..] == [] && b[i..] == [];
      return 0;
    } else if s2[i] != 0 {
      assert i == |a| && i < |b|;
      return -1;
    } else {
      assert i == |b| && i < |a|;
      return 1;
    }
  }
}
