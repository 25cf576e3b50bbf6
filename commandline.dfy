/**
 * The command line of the exalt program: classifying the arguments into
 * options and file names, choosing the output encoding, and naming the
 * output file of each compression or decompression.
 */
module CommandLine {
  import opened Wrappers
  import opened TextCodecs

  /** DEFAULT_FILE_SUFFIX, the suffix of compressed files. */
  const DefaultFileSuffix: string := ".e"

  // ---------------------------------------------------------------------
  // testFileNameSuffix
  // ---------------------------------------------------------------------

  /** Where `suf` starts in `str` when `str` ends with `suf`, and -1 otherwise. */
  function SuffixStart(str: string, suf: string): int
  {
    if |suf| <= |str| && str[|str| - |suf|..] == suf then |str| - |suf| else -1
  }

  /** A non-negative answer splits the name into a prefix and the suffix; -1 means no such split. */
  lemma SuffixStartMeaning(str: string, suf: string)
    ensures SuffixStart(str, suf) >= 0 ==> str == str[..SuffixStart(str, suf)] + suf
    ensures SuffixStart(str, suf) == -1 <==> forall p: string :: str != p + suf
    ensures SuffixStart(str, "") == |str|
  {
    if SuffixStart(str, suf) != -1 {
      var r := SuffixStart(str, suf);
      assert str == str[..r] + str[r..];
    }
    assert str[|str|..] == "";
  }

  /** A name built by appending a suffix gives back the length of its prefix. */
  lemma SuffixStartAppend(prefix: string, suf: string)
    ensures SuffixStart(prefix + suf, suf) == |prefix|
  {
    assert (prefix + suf)[|prefix|..] == suf;
  }

  /**
   * testFileNameSuffix as written: it compares from the back and indexes
   * `str` without checking that it is long enough.  When `str` is a proper
   * tail of `suf` the loop reads the character before `str`, which is
   * undefined behaviour; `None` stands for that read.
   */
  method TestFileNameSuffixAsWritten(str: string, suf: string) returns (r: Option<int>)
    ensures r.None? <==> |suf| > |str| && str == suf[|suf| - |str|..]
    ensures r.Some? ==> r.value == SuffixStart(str, suf)
  {
    var i := |str| - 1;
    var j := |suf| - 1;
    while j > -1
      invariant -1 <= j < |suf| && -1 <= i && i - j == |str| - |suf|
      invariant forall k :: j < k < |suf| ==> str[k + |str| - |suf|] == suf[k]
      decreases j
    {
      if i < 0 {
        assert str == suf[|suf| - |str|..] by {
          forall k | 0 <= k < |str|
            ensures str[k] == suf[|suf| - |str|..][k]
          {
            assert str[(k + |suf| - |str|) + |str| - |suf|] == suf[k + |suf| - |str|];
          }
        }
        return None;
      }
      if str[i] != suf[j] {
        assert |suf| <= |str| ==> str[|str| - |suf|..][j] != suf[j];
        return Some(-1);
      }
      i := i - 1;
      j := j - 1;
    }
    assert str[|str| - |suf|..] == suf by {
      forall k | 0 <= k < |suf|
        ensures str[|str| - |suf|..][k] == suf[k]
      {
      }
    }
    return Some(i + 1);
  }

  /** A name that is the tail of the default suffix makes the loop read before the name. */
  lemma ShortNameReadsBeforeStart()
    ensures |DefaultFileSuffix| > |"e"| && "e" == DefaultFileSuffix[|DefaultFileSuffix| - |"e"|..]
  {
  }

  /** testFileNameSuffix with the missing length check: a suffix longer than the name does not match. */
  method TestFileNameSuffix(str: string, suf: string) returns (r: int)
    ensures r == SuffixStart(str, suf)
  {
    if |suf| > |str| {
      return -1;
    }
    var i := |str| - 1;
    var j := |suf| - 1;
    while j > -1
      invariant -1 <= j < |suf| && i - j == |str| - |suf|
      invariant forall k :: j < k < |suf| ==> str[k + |str| - |suf|] == suf[k]
      decreases j
    {
      if str[i] != suf[j] {
        assert str[|str| - |suf|..][j] != suf[j];
        return -1;
      }
      i := i - 1;
      j := j - 1;
    }
    assert str[|str| - |suf|..] == suf by {
      forall k | 0 <= k < |suf|
        ensures str[|str| - |suf|..][k] == suf[k]
      {
      }
    }
    return i + 1;
  }

  // ---------------------------------------------------------------------
  // The output encoding (SET_OUTPUT_ENCODING)
  // ---------------------------------------------------------------------

  /** The encoding of the last entry of `t` named `name`, or Unknown. */
  function LastNamed(t: seq<EncodingName>, name: string): MIB
  {
    if t == [] then Unknown
    else if t[|t| - 1].name == Some(name) then t[|t| - 1].mib
    else LastNamed(t[..|t| - 1], name)
  }

  /** The entry named `name` that no later entry shares decides the last match. */
  lemma {:induction false} LastNamedAt(t: seq<EncodingName>, name: string, i: nat)
    requires i < |t| && t[i].name == Some(name)
    requires forall j :: i < j < |t| ==> t[j].name != Some(name)
    ensures LastNamed(t, name) == t[i].mib
    decreases |t|
  {
    if i < |t| - 1 {
      var u := t[..|t| - 1];
      assert u[i] == t[i];
      assert forall j :: i < j < |u| ==> u[j] == t[j];
      LastNamedAt(u, name, i);
    }
  }

  /** Without an entry named `name` there is no match. */
  lemma {:induction false} LastNamedNone(t: seq<EncodingName>, name: string)
    requires forall j :: 0 <= j < |t| ==> t[j].name != Some(name)
    ensures LastNamed(t, name) == Unknown
    decreases |t|
  {
    if t != [] {
      var u := t[..|t| - 1];
      assert forall j :: 0 <= j < |u| ==> u[j] == t[j];
      LastNamedNone(u, name);
    }
  }

  /** The loop of SET_OUTPUT_ENCODING over a terminated table: the last entry with this name wins. */
  method ScanLastNamed(t: seq<EncodingName>, ghost n: nat, name: string) returns (mib: MIB)
    requires Terminated(t, n)
    ensures mib == LastNamed(t[..n], name)
  {
    mib := Unknown;
    var j := 0;
    while t[j].name.Some?
      invariant 0 <= j <= n
      invariant mib == LastNamed(t[..j], name)
      decreases n - j
    {
      if t[j].name.value == name {
        mib := t[j].mib;
      }
      j := j + 1;
      assert t[..j][..j - 1] == t[..j - 1];
    }
  }

  /** The encoding `-e name` selects, Unknown when the name is not listed. */
  function OutputEncoding(name: string): MIB
  {
    LastNamed(EncodingNames()[..NamesEnd], name)
  }

  /** SET_OUTPUT_ENCODING's search of ENCODING_NAMES. */
  method SelectEncoding(name: string) returns (mib: MIB)
    ensures mib == OutputEncoding(name)
  {
    NamesTerminated();
    mib := ScanLastNamed(EncodingNames(), NamesEnd, name);
  }

  /** Every listed name selects its own encoding. */
  lemma OutputEncodingOfName(m: MIB)
    requires m != Unknown
    ensures OutputEncoding(NameOf(m)) == m
  {
    var t := EncodingNames()[..NamesEnd];
    var i := NameIndex(m);
    NamesEntryIndex(i);
    forall j | i < j < |t|
      ensures t[j].name != Some(NameOf(m))
    {
      NamesEntryIndex(j);
      if t[j].name == Some(NameOf(m)) {
        NameOfInjective(t[j].mib, m);
      }
    }
    LastNamedAt(t, NameOf(m), i);
  }

  /** A name no encoding carries is refused. */
  lemma OutputEncodingUnnamed(name: string)
    requires forall m :: m != Unknown ==> NameOf(m) != name
    ensures OutputEncoding(name) == Unknown
  {
    var t := EncodingNames()[..NamesEnd];
    forall j | 0 <= j < |t|
      ensures t[j].name != Some(name)
    {
      NamesEntryIndex(j);
    }
    LastNamedNone(t, name);
  }

  /** `-e` accepts the names getMIB accepts, and picks the same encoding. */
  lemma OutputEncodingAgreesWithGetMIB(m: MIB)
    requires m != Unknown
    ensures GetMIB(Some(NameOf(m))) == Ok(OutputEncoding(NameOf(m)))
  {
    OutputEncodingOfName(m);
    GetMIBNameOf(m);
  }

  // ---------------------------------------------------------------------
  // Argument classification
  // ---------------------------------------------------------------------

  datatype Action = Compress | Decompress

  /** The settings main collects before it acts. */
  datatype Settings = Settings(
    action: Action, suffix: Option<string>, force: bool, verbose: bool,
    printModels: bool, printGrammar: bool, useStdout: bool, adaptive: bool,
    erase: bool, encoding: MIB)

  /**
   * The settings before any option is read.  The encoding is
   * DEFAULT_OUTPUT_ENCODING for a build without XML_UNICODE (the build whose
   * XmlChar is a byte, as here): UTF-16, since expat then works in UTF-16.
   */
  const DefaultSettings: Settings :=
    Settings(Compress, None, false, false, false, false, false, false, false, UTF_16)

  /** The options main recognises, each with a long and a short spelling. */
  datatype Opt =
    | SuffixOpt | ForceOpt | VerboseOpt | ModelsOpt | GrammarOpt | StdoutOpt
    | DecompressOpt | AdaptiveOpt | EncodingOpt | ListOpt | EraseOpt
    | VersionOpt | LicenseOpt | HelpOpt

  /** What the program prints before a successful early exit. */
  datatype Info = EncodingList | Version | License

  /** Why the usage is printed and the program exits with failure. */
  datatype Failure =
    | MissingArgument(option: string)
    | EncodingNotListed(name: string)
    | HelpRequested
    | UnknownOption(option: string)

  /** The outcome of reading the command line. */
  datatype Parsed =
    | Proceed(settings: Settings, files: seq<string>)
    | Informed(info: Info)
    | Usage(failure: Failure)

  function Recognise(arg: string): Option<Opt>
  {
    if arg == "--suffix" || arg == "-s" then Some(SuffixOpt)
    else if arg == "--force" || arg == "-f" then Some(ForceOpt)
    else if arg == "--verbose" || arg == "-v" then Some(VerboseOpt)
    else if arg == "--print-models" || arg == "-m" then Some(ModelsOpt)
    else if arg == "--print-grammar" || arg == "-g" then Some(GrammarOpt)
    else if arg == "--stdout" || arg == "-c" then Some(StdoutOpt)
    else if arg == "--decompress" || arg == "-d" then Some(DecompressOpt)
    else if arg == "--adaptive" || arg == "-a" then Some(AdaptiveOpt)
    else if arg == "--encoding" || arg == "-e" then Some(EncodingOpt)
    else if arg == "--list-encodings" || arg == "-l" then Some(ListOpt)
    else if arg == "--erase" || arg == "-x" then Some(EraseOpt)
    else if arg == "--version" || arg == "-V" then Some(VersionOpt)
    else if arg == "--license" || arg == "-L" then Some(LicenseOpt)
    else if arg == "--help" || arg == "-h" then Some(HelpOpt)
    else None
  }

  /** An argument main would take for an option: it starts with '-' and is not "-" itself. */
  predicate OptionLike(arg: string)
  {
    arg != "-" && |arg| > 0 && arg[0] == '-'
  }

  /** Every recognised option looks like an option. */
  lemma RecognisedOptionLike(arg: string)
    ensures Recognise(arg).Some? ==> OptionLike(arg)
  {
  }

  /** The options that only set a flag. */
  predicate IsFlag(opt: Opt)
  {
    opt in {ForceOpt, VerboseOpt, ModelsOpt, GrammarOpt, StdoutOpt, DecompressOpt, AdaptiveOpt, EraseOpt}
  }

  function SetFlag(s: Settings, opt: Opt): Settings
    requires IsFlag(opt)
  {
    match opt
    case ForceOpt => s.(force := true)
    case VerboseOpt => s.(verbose := true)
    case ModelsOpt => s.(printModels := true)
    case GrammarOpt => s.(printGrammar := true)
    case StdoutOpt => s.(useStdout := true)
    case DecompressOpt => s.(action := Decompress)
    case AdaptiveOpt => s.(adaptive := true)
    case EraseOpt => s.(erase := true)
  }

  /** The first option-like argument among the unrecognised ones. */
  function FirstOptionLike(args: seq<string>): Option<string>
  {
    if args == [] then None
    else if OptionLike(args[0]) then Some(args[0])
    else FirstOptionLike(args[1..])
  }

  /** The second pass: an unknown option fails, everything else is a file name. */
  function CheckUnrecognised(s: Settings, unrecognised: seq<string>): Parsed
  {
    match FirstOptionLike(unrecognised)
    case Some(arg) => Usage(UnknownOption(arg))
    case None => Proceed(s, unrecognised)
  }

  /** The first pass over the rest of the arguments, with the settings and unrecognised arguments so far. */
  function Scan(args: seq<string>, s: Settings, unrecognised: seq<string>): Parsed
    decreases |args|
  {
    if args == [] then CheckUnrecognised(s, unrecognised)
    else match Recognise(args[0])
      case None => Scan(args[1..], s, unrecognised + [args[0]])
      case Some(opt) =>
        if opt == SuffixOpt || opt == EncodingOpt then
          if |args| < 2 then Usage(MissingArgument(args[0]))
          else if opt == SuffixOpt then Scan(args[2..], s.(suffix := Some(args[1])), unrecognised)
          else if OutputEncoding(args[1]) == Unknown then Usage(EncodingNotListed(args[1]))
          else Scan(args[2..], s.(encoding := OutputEncoding(args[1])), unrecognised)
        else if opt == ListOpt then Informed(EncodingList)
        else if opt == VersionOpt then Informed(Version)
        else if opt == LicenseOpt then Informed(License)
        else if opt == HelpOpt then Usage(HelpRequested)
        else Scan(args[1..], SetFlag(s, opt), unrecognised)
  }

  /** The command line `args` (without the program name). */
  function Parse(args: seq<string>): Parsed
  {
    Scan(args, DefaultSettings, [])
  }

  /** main's two loops over the arguments. */
  method ParseArguments(args: seq<string>) returns (r: Parsed)
    ensures r == Parse(args)
  {
    var s := DefaultSettings;
    var unrecognised: seq<string> := [];
    var i := 0;
    while i < |args|
      invariant 0 <= i <= |args|
      invariant Scan(args[i..], s, unrecognised) == Parse(args)
      decreases |args| - i
    {
      var opt := Recognise(args[i]);
      assert args[i..][0] == args[i];
      if opt.None? {
        unrecognised := unrecognised + [args[i]];
        assert args[i..][1..] == args[i + 1..];
        i := i + 1;
      } else if opt.value == SuffixOpt || opt.value == EncodingOpt {
        if i + 1 >= |args| {
          return Usage(MissingArgument(args[i]));
        }
        assert args[i..][1] == args[i + 1] && args[i..][2..] == args[i + 2..];
        if opt.value == SuffixOpt {
          s := s.(suffix := Some(args[i + 1]));
        } else {
          var mib := SelectEncoding(args[i + 1]);
          if mib == Unknown {
            return Usage(EncodingNotListed(args[i + 1]));
          }
          s := s.(encoding := mib);
        }
        i := i + 2;
      } else if opt.value == ListOpt {
        return Informed(EncodingList);
      } else if opt.value == VersionOpt {
        return Informed(Version);
      } else if opt.value == LicenseOpt {
        return Informed(License);
      } else if opt.value == HelpOpt {
        return Usage(HelpRequested);
      } else {
        s := SetFlag(s, opt.value);
        assert args[i..][1..] == args[i + 1..];
        i := i + 1;
      }
    }
    var files: seq<string> := [];
    var k := 0;
    while k < |unrecognised|
      invariant 0 <= k <= |unrecognised| && files == unrecognised[..k]
      invariant FirstOptionLike(unrecognised[k..]) == FirstOptionLike(unrecognised)
      decreases |unrecognised| - k
    {
      assert unrecognised[k..][0] == unrecognised[k];
      if OptionLike(unrecognised[k]) {
        return Usage(UnknownOption(unrecognised[k]));
      }
      assert unrecognised[k..][1..] == unrecognised[k + 1..];
      files := files + [unrecognised[k]];
      k := k + 1;
    }
    assert files == unrecognised;
    return Proceed(s, files);
  }

  /** An argument that is neither an option nor option-like: a file name. */
  predicate Plain(arg: string)
  {
    !OptionLike(arg)
  }

  /** Plain arguments are collected in order and change no setting. */
  lemma {:induction false} ScanPlain(fs: seq<string>, rest: seq<string>, s: Settings, u: seq<string>)
    requires forall k :: 0 <= k < |fs| ==> Plain(fs[k])
    ensures Scan(fs + rest, s, u) == Scan(rest, s, u + fs)
    decreases |fs|
  {
    if fs != [] {
      RecognisedOptionLike(fs[0]);
      assert (fs + rest)[0] == fs[0];
      assert (fs + rest)[1..] == fs[1..] + rest;
      assert u + [fs[0]] + fs[1..] == u + fs;
      ScanPlain(fs[1..], rest, s, u + [fs[0]]);
    } else {
      assert fs + rest == rest && u + fs == u;
    }
  }

  /** The second pass keeps plain arguments as file names. */
  lemma {:induction false} FirstOptionLikePlain(fs: seq<string>)
    requires forall k :: 0 <= k < |fs| ==> Plain(fs[k])
    ensures FirstOptionLike(fs) == None
    decreases |fs|
  {
    if fs != [] {
      FirstOptionLikePlain(fs[1..]);
    }
  }

  /** A command line of file names alone compresses those files with the default settings. */
  lemma ParsePlain(fs: seq<string>)
    requires forall k :: 0 <= k < |fs| ==> Plain(fs[k])
    ensures Parse(fs) == Proceed(DefaultSettings, fs)
    ensures Parse(fs).settings.action == Compress && Code(Parse(fs).settings.encoding) == 1015
  {
    ScanPlain(fs, [], DefaultSettings, []);
    assert fs + [] == fs;
    assert [] + fs == fs;
    FirstOptionLikePlain(fs);
  }

  /** Options and files may come in any order: a flag after some file names acts as it does before them. */
  lemma FlagAnywhere(fs: seq<string>, flag: string, rest: seq<string>)
    requires forall k :: 0 <= k < |fs| ==> Plain(fs[k])
    requires Recognise(flag).Some? && IsFlag(Recognise(flag).value)
    ensures Parse(fs + [flag] + rest) == Parse([flag] + fs + rest)
  {
    var s' := SetFlag(DefaultSettings, Recognise(flag).value);
    calc {
      Parse(fs + [flag] + rest);
      { assert fs + [flag] + rest == fs + ([flag] + rest); ScanPlain(fs, [flag] + rest, DefaultSettings, []); }
      Scan([flag] + rest, DefaultSettings, [] + fs);
      { ScanFlag(flag, rest, DefaultSettings, [] + fs); }
      Scan(rest, s', [] + fs);
      { ScanPlain(fs, rest, s', []); }
      Scan(fs + rest, s', []);
      { assert [flag] + fs + rest == [flag] + (fs + rest); ScanFlag(flag, fs + rest, DefaultSettings, []); }
      Parse([flag] + fs + rest);
    }
  }

  /** A flag at the head of the arguments sets its field and scanning goes on. */
  lemma ScanFlag(flag: string, rest: seq<string>, s: Settings, u: seq<string>)
    requires Recognise(flag).Some? && IsFlag(Recognise(flag).value)
    ensures Scan([flag] + rest, s, u) == Scan(rest, SetFlag(s, Recognise(flag).value), u)
  {
    assert ([flag] + rest)[0] == flag && ([flag] + rest)[1..] == rest;
  }

  /** Every file name main goes on with is "-" or does not start with '-'. */
  lemma {:induction false} ScanFilesPlain(args: seq<string>, s: Settings, u: seq<string>)
    requires forall k :: 0 <= k < |u| ==> Plain(u[k]) || FirstOptionLike(u) != None
    ensures Scan(args, s, u).Proceed? ==> forall k :: 0 <= k < |Scan(args, s, u).files| ==> Plain(Scan(args, s, u).files[k])
    decreases |args|
  {
    if args == [] {
      FirstOptionLikeFound(u);
    } else {
      match Recognise(args[0])
      case None =>
        var u' := u + [args[0]];
        FirstOptionLikeSnoc(u, args[0]);
        ScanFilesPlain(args[1..], s, u');
      case Some(opt) =>
        if opt in {SuffixOpt, EncodingOpt} {
          if |args| >= 2 {
            if opt == SuffixOpt {
              ScanFilesPlain(args[2..], s.(suffix := Some(args[1])), u);
            } else if OutputEncoding(args[1]) != Unknown {
              ScanFilesPlain(args[2..], s.(encoding := OutputEncoding(args[1])), u);
            }
          }
        } else if IsFlag(opt) {
          ScanFilesPlain(args[1..], SetFlag(s, opt), u);
        }
    }
  }

  /** FirstOptionLike finds an option-like argument whenever one is present. */
  lemma {:induction false} FirstOptionLikeFound(u: seq<string>)
    ensures FirstOptionLike(u) == None ==> forall k :: 0 <= k < |u| ==> Plain(u[k])
    ensures FirstOptionLike(u).Some? ==> OptionLike(FirstOptionLike(u).value)
    decreases |u|
  {
    if u != [] {
      FirstOptionLikeFound(u[1..]);
      assert forall k :: 1 <= k < |u| ==> u[k] == u[1..][k - 1];
    }
  }

  /** Appending an argument keeps a found option-like argument found. */
  lemma {:induction false} FirstOptionLikeSnoc(u: seq<string>, a: string)
    ensures FirstOptionLike(u) != None ==> FirstOptionLike(u + [a]) != None
    ensures FirstOptionLike(u) == None ==> FirstOptionLike(u + [a]) == (if OptionLike(a) then Some(a) else None)
    decreases |u|
  {
    if u != [] {
      assert (u + [a])[0] == u[0];
      assert (u + [a])[1..] == u[1..] + [a];
      FirstOptionLikeSnoc(u[1..], a);
    }
  }

  /** Whatever the arguments, main goes on only with file names that are not options. */
  lemma ParseFilesPlain(args: seq<string>)
    ensures Parse(args).Proceed? ==> forall k :: 0 <= k < |Parse(args).files| ==> Plain(Parse(args).files[k])
  {
    ScanFilesPlain(args, DefaultSettings, []);
  }

  // ---------------------------------------------------------------------
  // Output file names
  // ---------------------------------------------------------------------

  /** With no file name given, "-" (standard input and output) is processed. */
  function FilesOrStdin(files: seq<string>): (r: seq<string>)
    ensures |r| >= 1
    ensures files != [] ==> r == files
  {
    if files == [] then ["-"] else files
  }

  /** One run of the codec: None stands for standard input or output. */
  datatype Job = Job(input: Option<string>, output: Option<string>)

  /** The suffix compressed files get: the user's, or ".e". */
  function CompressedSuffix(s: Settings): string
  {
    if s.suffix.Some? then s.suffix.value else DefaultFileSuffix
  }

  /** The job of compressing `file`. */
  function CompressJob(file: string, s: Settings): (j: Job)
    ensures file != "-" ==> j.input == Some(file)
    ensures file != "-" && !s.useStdout ==> j.output == Some(file + CompressedSuffix(s))
    ensures file == "-" || s.useStdout <==> j.output.None?
  {
    if file == "-" then Job(None, None)
    else if s.useStdout then Job(Some(file), None)
    else Job(Some(file), Some(file + CompressedSuffix(s)))
  }

  /** The length of the output name when decompressing: before ".e", else before the user's suffix, else -1. */
  function DecompressedLength(file: string, s: Settings): (n: int)
    ensures -1 <= n <= |file|
  {
    if SuffixStart(file, DefaultFileSuffix) != -1 then SuffixStart(file, DefaultFileSuffix)
    else if s.suffix.Some? then SuffixStart(file, s.suffix.value)
    else -1
  }

  /** The job of decompressing `file`; None when the suffix is unknown and the file is skipped. */
  function DecompressJob(file: string, s: Settings): (j: Option<Job>)
    ensures file == "-" ==> j == Some(Job(None, None))
    ensures file != "-" ==> (j.None? <==> DecompressedLength(file, s) == -1)
    ensures j.Some? && file != "-" && !s.useStdout ==> j.value.output == Some(file[..DecompressedLength(file, s)])
  {
    if file == "-" then Some(Job(None, None))
    else
      var n := DecompressedLength(file, s);
      if n == -1 then None
      else if s.useStdout then Some(Job(Some(file), None))
      else Some(Job(Some(file), Some(file[..n])))
  }

  /**
   * Decompressing a compressed file gives back the original name exactly
   * when the ".e" test does not fire first on a longer user suffix that
   * ends in ".e" (or on a name ending with '.' and the suffix "e").
   */
  lemma CompressThenDecompress(file: string, s: Settings)
    requires file != "-" && file != "" && !s.useStdout
    ensures var name := file + CompressedSuffix(s);
      name != "-" &&
      (DecompressJob(name, s) == Some(Job(Some(name), Some(file))) <==>
        CompressedSuffix(s) == DefaultFileSuffix || SuffixStart(name, DefaultFileSuffix) == -1)
  {
    var suf := CompressedSuffix(s);
    var name := file + suf;
    SuffixStartAppend(file, suf);
    assert name[..|file|] == file;
    assert |suf| == 0 ==> name == file;
  }

  /** The default suffix always round-trips. */
  lemma DefaultSuffixRoundTrip(file: string)
    requires file != "-" && file != ""
    ensures DecompressJob(file + DefaultFileSuffix, DefaultSettings) == Some(Job(Some(file + DefaultFileSuffix), Some(file)))
  {
    CompressThenDecompress(file, DefaultSettings);
  }

  /** A user suffix ending in ".e" is cut at ".e": "a" compressed with ".x.e" decompresses to "a.x". */
  lemma LongSuffixEndingInDefault()
    ensures DecompressJob("a.x.e", DefaultSettings.(suffix := Some(".x.e"))) == Some(Job(Some("a.x.e"), Some("a.x")))
  {
    var s := DefaultSettings.(suffix := Some(".x.e"));
    assert "a.x.e"[3..] == DefaultFileSuffix;
    assert SuffixStart("a.x.e", DefaultFileSuffix) == 3;
    assert "a.x.e"[..3] == "a.x";
  }
}
