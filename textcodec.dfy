/**
 * TextCodec: the lookup tables of the supported character encodings,
 * the map array handed to Expat for single-byte encodings, and the
 * output of characters in an output encoding.
 *
 * An encoding is a `MIB` value; `Code` gives the number the enumeration
 * assigns to it.  Encoding names are plain strings: in the build modelled
 * here `XmlChar` is `char`, and `xmlchar_cstrcmp` returns 0 exactly when
 * the two strings are equal (XmlChar.CompareZeroIff), so a name matches
 * when it is equal to the tabled one.  An output device is modelled by
 * the sequence of characters written to it.
 */
module TextCodecs {
  import opened Wrappers
  import XmlChar

  /** Encodings::MIB */
  datatype MIB =
    | Unknown | UTF_8 | UTF_16 | US_ASCII
    | ISO_8859_1 | ISO_8859_2 | ISO_8859_3 | ISO_8859_4 | ISO_8859_5 | ISO_8859_6
    | ISO_8859_7 | ISO_8859_8 | ISO_8859_9 | ISO_8859_10 | ISO_8859_11
    | ISO_8859_13 | ISO_8859_14 | ISO_8859_15
    | CP_1250 | CP_1251 | CP_1252 | CP_1253 | CP_1254 | CP_1255 | CP_1256 | CP_1257 | CP_1258
    | KOI8_R | KOI8_V

  /** The exceptions of the codec. */
  datatype CodecError = UnknownEncoding | UnsupportedOutputEncoding

  datatype Result<T> = Ok(value: T) | Err(error: CodecError)

  /** The MIB number the enumeration assigns to each encoding. */
  function Code(m: MIB): int
  {
    match m
    case Unknown => -1
    case UTF_8 => 106
    case UTF_16 => 1015
    case US_ASCII => 3
    case ISO_8859_1 => 4
    case ISO_8859_2 => 5
    case ISO_8859_3 => 6
    case ISO_8859_4 => 7
    case ISO_8859_5 => 8
    case ISO_8859_6 => 82
    case ISO_8859_7 => 10
    case ISO_8859_8 => 85
    case ISO_8859_9 => 12
    case ISO_8859_10 => 13
    case ISO_8859_11 => 2259
    case ISO_8859_13 => 109
    case ISO_8859_14 => 110
    case ISO_8859_15 => 111
    case CP_1250 => 2250
    case CP_1251 => 2251
    case CP_1252 => 2252
    case CP_1253 => 2253
    case CP_1254 => 2254
    case CP_1255 => 2255
    case CP_1256 => 2256
    case CP_1257 => 2257
    case CP_1258 => 2258
    case KOI8_R => 2084
    case KOI8_V => 2088
  }

  /** The encoding with a given MIB number, if any. */
  function FromCode(c: int): Option<MIB>
  {
    if c == -1 then Some(Unknown)
    else if c == 106 then Some(UTF_8)
    else if c == 1015 then Some(UTF_16)
    else if c == 3 then Some(US_ASCII)
    else if 4 <= c <= 8 then Some([ISO_8859_1, ISO_8859_2, ISO_8859_3, ISO_8859_4, ISO_8859_5][c - 4])
    else if c == 82 then Some(ISO_8859_6)
    else if c == 10 then Some(ISO_8859_7)
    else if c == 85 then Some(ISO_8859_8)
    else if c == 12 then Some(ISO_8859_9)
    else if c == 13 then Some(ISO_8859_10)
    else if c == 2259 then Some(ISO_8859_11)
    else if 109 <= c <= 111 then Some([ISO_8859_13, ISO_8859_14, ISO_8859_15][c - 109])
    else if 2250 <= c <= 2258 then
      Some([CP_1250, CP_1251, CP_1252, CP_1253, CP_1254, CP_1255, CP_1256, CP_1257, CP_1258][c - 2250])
    else if c == 2084 then Some(KOI8_R)
    else if c == 2088 then Some(KOI8_V)
    else None
  }

  /** No two encodings share a MIB number: FromCode inverts Code. */
  lemma CodeInjective(m: MIB)
    ensures FromCode(Code(m)) == Some(m)
  {
  }

  // ---------------------------------------------------------------------
  // Encoding names
  // ---------------------------------------------------------------------

  /** Encodings::EncodingName; a null name ends a table. */
  datatype EncodingName = EncodingName(name: Option<string>, mib: MIB)

  /** The decimal digit `d`. */
  function Digit(d: nat): char
    requires d < 10
  {
    (48 + d) as char
  }

  /** "ISO-8859-" followed by the part number `n`. */
  function IsoName(n: nat): string
    requires 1 <= n < 20
  {
    "ISO-8859-" + (if n < 10 then [Digit(n)] else ['1', Digit(n - 10)])
  }

  /** "CP", the separator `sep`, then 1250 + k. */
  function CpName(sep: char, k: nat): string
    requires k < 9
  {
    "CP" + [sep] + "125" + [Digit(k)]
  }

  /** "KOI8", the separator `sep`, then the variant letter. */
  function KoiName(sep: char, variant: char): string
  {
    "KOI8" + [sep] + [variant]
  }

  /** The ISO-8859 part numbers in their order in the tables: 1 to 11, then 13 to 15. */
  function IsoNumber(i: nat): (n: nat)
    requires i < 14
    ensures 1 <= n <= 15 && n != 12
  {
    if i < 11 then i + 1 else i + 2
  }

  /** ISO-8859 part `n`. */
  function IsoMib(n: nat): (m: MIB)
    requires 1 <= n <= 15 && n != 12
    ensures m != Unknown
  {
    if n == 1 then ISO_8859_1 else if n == 2 then ISO_8859_2 else if n == 3 then ISO_8859_3
    else if n == 4 then ISO_8859_4 else if n == 5 then ISO_8859_5 else if n == 6 then ISO_8859_6
    else if n == 7 then ISO_8859_7 else if n == 8 then ISO_8859_8 else if n == 9 then ISO_8859_9
    else if n == 10 then ISO_8859_10 else if n == 11 then ISO_8859_11 else if n == 13 then ISO_8859_13
    else if n == 14 then ISO_8859_14 else ISO_8859_15
  }

  /** Windows code page 1250 + k. */
  function CpMib(k: nat): (m: MIB)
    requires k < 9
    ensures m != Unknown
  {
    if k == 0 then CP_1250 else if k == 1 then CP_1251 else if k == 2 then CP_1252
    else if k == 3 then CP_1253 else if k == 4 then CP_1254 else if k == 5 then CP_1255
    else if k == 6 then CP_1256 else if k == 7 then CP_1257 else CP_1258
  }

  /** The name ENCODING_NAMES gives to a known encoding. */
  function NameOf(m: MIB): string
    requires m != Unknown
  {
    match m
    case UTF_8 => "UTF-8"
    case UTF_16 => "UTF-16"
    case US_ASCII => "US-ASCII"
    case ISO_8859_1 => IsoName(1)
    case ISO_8859_2 => IsoName(2)
    case ISO_8859_3 => IsoName(3)
    case ISO_8859_4 => IsoName(4)
    case ISO_8859_5 => IsoName(5)
    case ISO_8859_6 => IsoName(6)
    case ISO_8859_7 => IsoName(7)
    case ISO_8859_8 => IsoName(8)
    case ISO_8859_9 => IsoName(9)
    case ISO_8859_10 => IsoName(10)
    case ISO_8859_11 => IsoName(11)
    case ISO_8859_13 => IsoName(13)
    case ISO_8859_14 => IsoName(14)
    case ISO_8859_15 => IsoName(15)
    case CP_1250 => CpName('-', 0)
    case CP_1251 => CpName('-', 1)
    case CP_1252 => CpName('-', 2)
    case CP_1253 => CpName('-', 3)
    case CP_1254 => CpName('-', 4)
    case CP_1255 => CpName('-', 5)
    case CP_1256 => CpName('-', 6)
    case CP_1257 => CpName('-', 7)
    case CP_1258 => CpName('-', 8)
    case KOI8_R => KoiName('-', 'R')
    case KOI8_V => KoiName('-', 'V')
  }

  /** The name of entry `i` of ENCODING_NAMES; the last entry has none. */
  function NameAt(i: nat): Option<string>
    requires i <= 28
  {
    if i == 0 then Some("UTF-8")
    else if i == 1 then Some("UTF-16")
    else if i == 2 then Some("US-ASCII")
    else if i < 17 then Some(IsoName(IsoNumber(i - 3)))
    else if i < 26 then Some(CpName('-', i - 17))
    else if i == 26 then Some(KoiName('-', 'R'))
    else if i == 27 then Some(KoiName('-', 'V'))
    else None
  }

  /** The encoding of entry `i` of ENCODING_NAMES. */
  function MibAt(i: nat): MIB
    requires i <= 28
  {
    if i == 0 then UTF_8
    else if i == 1 then UTF_16
    else if i == 2 then US_ASCII
    else if i < 17 then IsoMib(IsoNumber(i - 3))
    else if i < 26 then CpMib(i - 17)
    else if i == 26 then KOI8_R
    else if i == 27 then KOI8_V
    else Unknown
  }

  /** Entry `i` of ENCODING_NAMES. */
  function NamesEntry(i: nat): EncodingName
    requires i <= 28
  {
    EncodingName(NameAt(i), MibAt(i))
  }

  /** ENCODING_NAMES, with its terminating null entry. */
  function EncodingNames(): (t: seq<EncodingName>)
    ensures |t| == 29
  {
    seq(29, i requires 0 <= i < 29 => NamesEntry(i))
  }

  /** The index of the terminating entry of ENCODING_NAMES. */
  const NamesEnd: nat := 28

  /** A few entries written out. */
  lemma EncodingNamesSample()
    ensures EncodingNames()[3] == EncodingName(Some("ISO-8859-1"), ISO_8859_1)
    ensures EncodingNames()[14] == EncodingName(Some("ISO-8859-13"), ISO_8859_13)
    ensures EncodingNames()[17] == EncodingName(Some("CP-1250"), CP_1250)
    ensures EncodingNames()[26] == EncodingName(Some("KOI8-R"), KOI8_R)
  {
    assert IsoName(1) == "ISO-8859-1";
    assert IsoName(13) == "ISO-8859-13";
    assert CpName('-', 0) == "CP-1250";
    assert KoiName('-', 'R') == "KOI8-R";
  }

  /** `m` is listed in ENCODING_NAMES before its terminator. */
  ghost predicate Listed(m: MIB)
  {
    exists i :: 0 <= i < NamesEnd && NamesEntry(i).mib == m
  }

  /** The position of an encoding in ENCODING_NAMES. */
  function NameIndex(m: MIB): (i: nat)
    requires m != Unknown
    ensures i < NamesEnd && EncodingNames()[i].mib == m
  {
    match m
    case UTF_8 => 0
    case UTF_16 => 1
    case US_ASCII => 2
    case ISO_8859_1 => 3
    case ISO_8859_2 => 4
    case ISO_8859_3 => 5
    case ISO_8859_4 => 6
    case ISO_8859_5 => 7
    case ISO_8859_6 => 8
    case ISO_8859_7 => 9
    case ISO_8859_8 => 10
    case ISO_8859_9 => 11
    case ISO_8859_10 => 12
    case ISO_8859_11 => 13
    case ISO_8859_13 => 14
    case ISO_8859_14 => 15
    case ISO_8859_15 => 16
    case CP_1250 => 17
    case CP_1251 => 18
    case CP_1252 => 19
    case CP_1253 => 20
    case CP_1254 => 21
    case CP_1255 => 22
    case CP_1256 => 23
    case CP_1257 => 24
    case CP_1258 => 25
    case KOI8_R => 26
    case KOI8_V => 27
  }

  /** Every entry before the terminator names a known encoding; the terminator has no name. */
  lemma NamesEntryKnown(i: nat)
    requires i <= NamesEnd
    ensures EncodingNames()[i] == NamesEntry(i)
    ensures i < NamesEnd ==> NameAt(i).Some? && MibAt(i) != Unknown
    ensures i == NamesEnd ==> NameAt(i).None? && i == |EncodingNames()| - 1
  {
  }

  lemma IsoEntryIndex(k: nat)
    requires k < 14
    ensures NameIndex(IsoMib(IsoNumber(k))) == 3 + k && NameOf(IsoMib(IsoNumber(k))) == IsoName(IsoNumber(k))
  {
    if k < 7 {
      assert k == 0 || k == 1 || k == 2 || k == 3 || k == 4 || k == 5 || k == 6;
    } else {
      assert k == 7 || k == 8 || k == 9 || k == 10 || k == 11 || k == 12 || k == 13;
    }
  }

  lemma CpEntryIndex(k: nat)
    requires k < 9
    ensures NameIndex(CpMib(k)) == 17 + k && NameOf(CpMib(k)) == CpName('-', k)
  {
    assert k == 0 || k == 1 || k == 2 || k == 3 || k == 4 || k == 5 || k == 6 || k == 7 || k == 8;
  }

  /** Each entry before the terminator carries the name of its encoding, at the index NameIndex gives it. */
  lemma NamesEntryIndex(i: nat)
    requires i < NamesEnd
    ensures EncodingNames()[i].mib != Unknown && NameIndex(EncodingNames()[i].mib) == i
    ensures EncodingNames()[i].name == Some(NameOf(EncodingNames()[i].mib))
  {
    if 3 <= i < 17 {
      IsoEntryIndex(i - 3);
    } else if 17 <= i < 26 {
      CpEntryIndex(i - 17);
    }
  }

  /** The table lists every encoding but Unknown, which only ends it. */
  lemma ListedIff(m: MIB)
    ensures Listed(m) <==> m != Unknown
  {
    if m != Unknown {
      var i := NameIndex(m);
    } else {
      forall i | 0 <= i < NamesEnd
        ensures EncodingNames()[i].mib != Unknown
      {
        NamesEntryKnown(i);
      }
    }
  }

  /** The first n entries of t are named and entry n is the terminator. */
  ghost predicate Terminated(t: seq<EncodingName>, n: nat)
  {
    n < |t| && t[n].name.None? && forall j :: 0 <= j < n ==> t[j].name.Some?
  }

  lemma NamesTerminated()
    ensures Terminated(EncodingNames(), NamesEnd)
    ensures forall j :: 0 <= j <= NamesEnd ==> EncodingNames()[j] == NamesEntry(j)
  {
    forall j | 0 <= j <= NamesEnd
      ensures EncodingNames()[j] == NamesEntry(j) && (j < NamesEnd ==> NamesEntry(j).name.Some?)
    {
      NamesEntryKnown(j);
    }
    NamesEntryKnown(NamesEnd);
  }

  /** The scan of knowsMIB over a terminated table: is m among the named entries? */
  method ScanMIB(t: seq<EncodingName>, ghost n: nat, m: MIB) returns (b: bool)
    requires Terminated(t, n)
    ensures b <==> exists j :: 0 <= j < n && t[j].mib == m
  {
    var i := 0;
    while t[i].name.Some?
      invariant 0 <= i <= n
      invariant forall j :: 0 <= j < i ==> t[j].mib != m
      decreases n - i
    {
      if t[i].mib == m {
        return true;
      }
      i := i + 1;
    }
    return false;
  }

  /** knowsMIB: scans ENCODING_NAMES up to its terminator. */
  method KnowsMIB(m: MIB) returns (b: bool)
    ensures b <==> Listed(m)
    ensures b <==> m != Unknown
  {
    ListedIff(m);
    NamesTerminated();
    b := ScanMIB(EncodingNames(), NamesEnd, m);
  }

  // Names are told apart by their length, first and last character.

  /** The encoding whose name has this length and first and last characters, if any. */
  function ParseSig(len: nat, first: char, last: char): Option<MIB>
  {
    var d := last as int - 48;
    if len == 5 then Some(UTF_8)
    else if len == 8 then Some(US_ASCII)
    else if len == 6 then Some(if first == 'U' then UTF_16 else if last == 'R' then KOI8_R else KOI8_V)
    else if len == 7 && 0 <= d < 9 then Some(CpMib(d))
    else if len == 10 && 1 <= d <= 9 then Some(IsoMib(d))
    else if len == 11 && 10 <= 10 + d <= 15 && d != 2 then Some(IsoMib(10 + d))
    else None
  }

  lemma IsoNameSig(n: nat)
    requires 1 <= n <= 15 && n != 12
    ensures |IsoName(n)| >= 5
    ensures ParseSig(|IsoName(n)|, IsoName(n)[0], IsoName(n)[|IsoName(n)| - 1]) == Some(IsoMib(n))
  {
    var s := IsoName(n);
    if n < 10 {
      assert |s| == 10 && s[9] == Digit(n);
    } else {
      assert |s| == 11 && s[10] == Digit(n - 10);
    }
  }

  lemma CpNameSig(k: nat)
    requires k < 9
    ensures |CpName('-', k)| == 7 && CpName('-', k)[6] == Digit(k)
    ensures ParseSig(7, 'C', Digit(k)) == Some(CpMib(k))
  {
  }

  /** Each named entry's signature parses back to its encoding. */
  lemma ParseSigAt(i: nat)
    requires i < NamesEnd
    ensures NameAt(i).Some? && |NameAt(i).value| >= 5
    ensures ParseSig(|NameAt(i).value|, NameAt(i).value[0], NameAt(i).value[|NameAt(i).value| - 1]) == Some(MibAt(i))
  {
    if 3 <= i < 17 {
      IsoNameSig(IsoNumber(i - 3));
    } else if 17 <= i < 26 {
      CpNameSig(i - 17);
    }
  }

  lemma ParseSigOfName(m: MIB)
    requires m != Unknown
    ensures |NameOf(m)| >= 5
    ensures ParseSig(|NameOf(m)|, NameOf(m)[0], NameOf(m)[|NameOf(m)| - 1]) == Some(m)
  {
    var i := NameIndex(m);
    NamesEntryIndex(i);
    NamesEntryKnown(i);
    ParseSigAt(i);
  }

  /** Distinct encodings have distinct names. */
  lemma NameOfInjective(a: MIB, b: MIB)
    requires a != Unknown && b != Unknown && NameOf(a) == NameOf(b)
    ensures a == b
  {
    ParseSigOfName(a);
    ParseSigOfName(b);
  }

  /** The first encoding of `table` carrying the name `s`. */
  function LookupName(table: seq<EncodingName>, s: string): Option<MIB>
  {
    if table == [] then None
    else if table[0].name == Some(s) then Some(table[0].mib)
    else LookupName(table[1..], s)
  }

  /** The lookup gives the first entry carrying the name. */
  lemma {:induction false} LookupFound(table: seq<EncodingName>, s: string, i: nat)
    requires i < |table| && table[i].name == Some(s)
    requires forall j :: 0 <= j < i ==> table[j].name != Some(s)
    ensures LookupName(table, s) == Some(table[i].mib)
    decreases i
  {
    if i > 0 {
      assert forall j :: 0 <= j < |table[1..]| ==> table[1..][j] == table[j + 1];
      LookupFound(table[1..], s, i - 1);
    }
  }

  /** The lookup fails when no entry carries the name. */
  lemma {:induction false} LookupMissing(table: seq<EncodingName>, s: string)
    requires forall j :: 0 <= j < |table| ==> table[j].name != Some(s)
    ensures LookupName(table, s) == None
    decreases |table|
  {
    if table != [] {
      assert forall j :: 0 <= j < |table[1..]| ==> table[1..][j] == table[j + 1];
      LookupMissing(table[1..], s);
    }
  }

  /** The names getMIB compares against, in order: entry `i` of its chain of comparisons. */
  function GetMIBEntryAsWritten(i: nat): EncodingName
    requires i < 28
  {
    if i == 0 then EncodingName(Some("US-ASCII"), US_ASCII)
    else if i == 1 then EncodingName(Some(KoiName('_', 'V')), KOI8_V)
    else if i == 2 then EncodingName(Some(KoiName('_', 'R')), KOI8_R)
    else if i == 3 then EncodingName(Some("UTF-8"), UTF_8)
    else if i == 4 then EncodingName(Some("UTF-16"), UTF_16)
    else if i < 19 then EncodingName(Some(IsoName(IsoNumber(i - 5))), IsoMib(IsoNumber(i - 5)))
    else EncodingName(Some(CpName('_', i - 19)), CpMib(i - 19))
  }

  /** The chain of comparisons of getMIB: the CP and KOI8 names are spelt with '_'. */
  function GetMIBNamesAsWritten(): (t: seq<EncodingName>)
    ensures |t| == 28
  {
    seq(28, i requires 0 <= i < 28 => GetMIBEntryAsWritten(i))
  }

  /** getMIB as written: null means UTF-8, and an unmatched name raises UnknownEncoding. */
  function GetMIBAsWritten(encoding: Option<string>): (r: Result<MIB>)
    ensures encoding.None? ==> r == Ok(UTF_8)
  {
    if encoding.None? then Ok(UTF_8)
    else match LookupName(GetMIBNamesAsWritten(), encoding.value)
      case Some(m) => Ok(m)
      case None => Err(UnknownEncoding)
  }

  /** The CP and KOI8 names of ENCODING_NAMES are not recognised by getMIB as written. */
  lemma GetMIBAsWrittenMisses(k: nat, variant: char)
    requires k < 9 && (variant == 'R' || variant == 'V')
    ensures GetMIBAsWritten(Some(CpName('-', k))) == Err(UnknownEncoding)
    ensures GetMIBAsWritten(Some(KoiName('-', variant))) == Err(UnknownEncoding)
  {
    forall j | 0 <= j < 28
      ensures GetMIBNamesAsWritten()[j].name != Some(CpName('-', k))
      ensures GetMIBNamesAsWritten()[j].name != Some(KoiName('-', variant))
    {
      var e := GetMIBNamesAsWritten()[j];
      if 1 <= j < 3 {
        assert e.name.value[4] == '_';
      } else if 19 <= j {
        assert |e.name.value| == 7 && e.name.value[2] == '_';
      } else if 5 <= j < 19 {
        assert |e.name.value| >= 10;
      } else if j == 4 {
        assert e.name.value[0] == 'U';
      }
    }
    LookupMissing(GetMIBNamesAsWritten(), CpName('-', k));
    LookupMissing(GetMIBNamesAsWritten(), KoiName('-', variant));
  }

  /** getMIB matching the names that ENCODING_NAMES gives. */
  function GetMIB(encoding: Option<string>): (r: Result<MIB>)
    ensures encoding.None? ==> r == Ok(UTF_8)
  {
    if encoding.None? then Ok(UTF_8)
    else match LookupName(EncodingNames()[..NamesEnd], encoding.value)
      case Some(m) => Ok(m)
      case None => Err(UnknownEncoding)
  }

  /** getMIB and the name table are inverse: every listed name gives its encoding. */
  lemma GetMIBNameOf(m: MIB)
    requires m != Unknown
    ensures GetMIB(Some(NameOf(m))) == Ok(m)
  {
    var t := EncodingNames()[..NamesEnd];
    var i := NameIndex(m);
    NamesEntryIndex(i);
    forall j | 0 <= j < i
      ensures t[j].name != Some(NameOf(m))
    {
      NamesEntryIndex(j);
      if t[j].name == Some(NameOf(m)) {
        NameOfInjective(t[j].mib, m);
      }
    }
    LookupFound(t, NameOf(m), i);
  }

  // ---------------------------------------------------------------------
  // Alphabet sizes, conversion and the Expat map
  // ---------------------------------------------------------------------

  /** suggestAlphabetBaseSize */
  function SuggestAlphabetBaseSize(m: MIB): (r: Result<nat>)
    ensures r.Ok? ==> r.value == 128 || r.value == 256
  {
    if m == UTF_8 || m == UTF_16 || m == ISO_8859_1 || m == ISO_8859_2 then Ok(256)
    else if m == US_ASCII then Ok(128)
    else Err(UnknownEncoding)
  }

  /** isAbleToConvert */
  predicate IsAbleToConvert(m: MIB)
  {
    m == US_ASCII || m == ISO_8859_2
  }

  /** US_ASCII_to_UTF8_table: every byte above 127 is invalid. */
  function USAsciiToUtf8(): seq<int>
  {
    seq(128, _ => -1)
  }

  /** ISO_8859_2_to_UTF8_table: the two UTF-8 bytes of each upper character, as one number. */
  const Iso88592ToUtf8: seq<int> := [
    0xc280, 0xc281, 0xc282, 0xc283, 0xc284, 0xc285, 0xc286, 0xc287,
    0xc288, 0xc289, 0xc28a, 0xc28b, 0xc28c, 0xc28d, 0xc28e, 0xc28f,
    0xc290, 0xc291, 0xc292, 0xc293, 0xc294, 0xc295, 0xc296, 0xc297,
    0xc298, 0xc299, 0xc29a, 0xc29b, 0xc29c, 0xc29d, 0xc29e, 0xc29f,
    0xc2a0, 0xc484, 0xcb98, 0xc581, 0xc2a4, 0xc4bd, 0xc59a, 0xc2a7,
    0xc2a8, 0xc5a0, 0xc59e, 0xc5a4, 0xc5b9, 0xc2ad, 0xc5bd, 0xc5bb,
    0xc2b0, 0xc485, 0xcb9b, 0xc582, 0xc2b4, 0xc4be, 0xc59b, 0xcb87,
    0xc2b8, 0xc5a1, 0xc59f, 0xc5a5, 0xc5ba, 0xcb9d, 0xc5be, 0xc5bc,
    0xc594, 0xc381, 0xc382, 0xc482, 0xc384, 0xc4b9, 0xc486, 0xc387,
    0xc48c, 0xc389, 0xc498, 0xc38b, 0xc49a, 0xc38d, 0xc38e, 0xc48e,
    0xc490, 0xc583, 0xc587, 0xc393, 0xc394, 0xc590, 0xc396, 0xc397,
    0xc598, 0xc5ae, 0xc39a, 0xc5b0, 0xc39c, 0xc39d, 0xc5a2, 0xc39f,
    0xc595, 0xc3a1, 0xc3a2, 0xc483, 0xc3a4, 0xc4ba, 0xc487, 0xc3a7,
    0xc48d, 0xc3a9, 0xc499, 0xc3ab, 0xc49b, 0xc3ad, 0xc3ae, 0xc48f,
    0xc491, 0xc584, 0xc588, 0xc3b3, 0xc3b4, 0xc591, 0xc3b6, 0xc3b7,
    0xc599, 0xc5af, 0xc3ba, 0xc5b1, 0xc3bc, 0xc3bd, 0xc5a3, 0xcb99
  ]

  /** A byte map whose lower half is the identity and whose upper half is `upper`. */
  function Spliced(upper: seq<int>): (mp: seq<int>)
    requires |upper| == 128
    ensures |mp| == 256
  {
    seq(256, i requires 0 <= i < 256 => if i < 128 then i else upper[i - 128])
  }

  /** The map fillInMapArray writes for `m`. */
  function MapFor(m: MIB): (mp: seq<int>)
    ensures |mp| == 256
  {
    if IsAbleToConvert(m) then Spliced(UpperTable(m)) else seq(256, _ => -1)
  }

  /** The table of the upper 128 bytes of a convertible encoding. */
  function UpperTable(m: MIB): (t: seq<int>)
    requires IsAbleToConvert(m)
    ensures |t| == 128
  {
    if m == US_ASCII then USAsciiToUtf8() else Iso88592ToUtf8
  }

  /** The two loops of fillInMapArray for a convertible encoding. */
  method FillSpliced(mp: array<int>, upper: seq<int>)
    requires mp.Length == 256 && |upper| == 128
    modifies mp
    ensures mp[..] == Spliced(upper)
  {
    for i := 0 to 128
      invariant forall j :: 0 <= j < i ==> mp[j] == j
    {
      mp[i] := i;
    }
    for i := 128 to 256
      invariant forall j :: 0 <= j < 128 ==> mp[j] == j
      invariant forall j :: 128 <= j < i ==> mp[j] == upper[j - 128]
    {
      mp[i] := upper[i - 128];
    }
    assert forall j :: 0 <= j < 256 ==> mp[j] == Spliced(upper)[j];
  }

  /**
   * fillInMapArray: for a convertible encoding the lower half maps each
   * byte to itself and the upper half comes from the encoding's table;
   * for any other encoding every entry is -1.
   */
  method FillInMapArray(mp: array<int>, m: MIB)
    requires mp.Length == 256
    modifies mp
    ensures mp[..] == MapFor(m)
  {
    if IsAbleToConvert(m) {
      FillSpliced(mp, UpperTable(m));
    } else {
      for i := 0 to 256
        invariant forall j :: 0 <= j < i ==> mp[j] == -1
      {
        mp[i] := -1;
      }
      assert forall j :: 0 <= j < 256 ==> mp[j] == MapFor(m)[j];
    }
  }

  /**
   * The map accepts exactly the encodings isAbleToConvert accepts: their
   * lower half is the identity, and the map of any other encoding rejects
   * every byte.  For US-ASCII the accepted bytes are exactly those its
   * alphabet size of 128 admits.
   */
  lemma MapForConvertible(m: MIB)
    ensures IsAbleToConvert(m) <==> forall i :: 0 <= i < 128 ==> MapFor(m)[i] == i
    ensures !IsAbleToConvert(m) ==> forall i :: 0 <= i < 256 ==> MapFor(m)[i] == -1
    ensures m == US_ASCII ==> forall i :: 0 <= i < 256 ==> (MapFor(m)[i] != -1 <==> i < SuggestAlphabetBaseSize(m).value)
  {
    if !IsAbleToConvert(m) {
      assert MapFor(m)[1] == -1;
    }
  }

  /** convert: the first byte for US-ASCII, -1 for every other encoding. */
  function Convert(s: seq<int>, m: MIB): (c: int)
    requires |s| >= 1
  {
    if m == US_ASCII then s[0] else -1
  }

  /** For a US-ASCII byte convert agrees with the map; for the encodings it cannot convert, so does -1. */
  lemma ConvertAgreesWithMap(s: seq<int>, m: MIB)
    requires |s| >= 1 && 0 <= s[0] < 128
    ensures m == US_ASCII ==> Convert(s, m) == MapFor(m)[s[0]]
    ensures !IsAbleToConvert(m) ==> Convert(s, m) == MapFor(m)[s[0]]
  {
  }

  // ---------------------------------------------------------------------
  // Output
  // ---------------------------------------------------------------------

  /** The encodings output can write. */
  predicate CanOutput(m: MIB)
  {
    m == UTF_8 || m == UTF_16
  }

  /** output(device, c, toEncoding): appends `c` to what the device holds. */
  function OutputChar(device: seq<int>, c: int, m: MIB): (r: Result<seq<int>>)
    ensures r.Ok? <==> CanOutput(m)
    ensures r.Ok? ==> r.value == device + [c]
    ensures r.Err? ==> r.error == UnsupportedOutputEncoding
  {
    if CanOutput(m) then Ok(device + [c]) else Err(UnsupportedOutputEncoding)
  }

  /** output(device, str, toEncoding): writes the string up to its terminator. */
  method OutputString(device: seq<int>, str: array<int>, m: MIB) returns (r: Result<seq<int>>)
    requires XmlChar.Terminated(str[..])
    ensures r.Ok? <==> CanOutput(m)
    ensures r.Ok? ==> r.value == device + XmlChar.Content(str[..])
    ensures r.Err? ==> r.error == UnsupportedOutputEncoding
  {
    if !CanOutput(m) {
      return Err(UnsupportedOutputEncoding);
    }
    var n := XmlChar.Length(str[..]);
    var out := device;
    var i := 0;
    while str[i] != 0
      invariant 0 <= i <= n
      invariant out == device + str[..i]
      decreases n - i
    {
      out := out + [str[i]];
      i := i + 1;
    }
    return Ok(out);
  }

  /** output(device, str, length, toEncoding): writes exactly `length` characters, terminators included. */
  method OutputLength(device: seq<int>, str: array<int>, length: nat, m: MIB) returns (r: Result<seq<int>>)
    requires length <= str.Length
    ensures r.Ok? <==> CanOutput(m)
    ensures r.Ok? ==> r.value == device + str[..length]
    ensures r.Err? ==> r.error == UnsupportedOutputEncoding
  {
    if !CanOutput(m) {
      return Err(UnsupportedOutputEncoding);
    }
    var out := device;
    for i := 0 to length
      invariant out == device + str[..i]
    {
      out := out + [str[i]];
    }
    return Ok(out);
  }
}
