/** `Config::new`: classifies the command-line arguments into option flags
    and non-options, then chooses between the help request, the two
    configuration errors, and a search configuration. */
module CliConfig {
  import opened Common
  import Finder

  /** The seven options; each is one boolean field of the source's `Config`. */
  datatype Flag = CaseInsensitive | LineNumbers | Invert | Recursive | Filenames | Colored | Help

  /** The search options and targets (the source's `Config` struct); its
      seven boolean fields are the set of options that are on. */
  datatype Config = Config(pattern: string, filePaths: seq<string>, flags: set<Flag>)

  /** The configuration before any argument is read: every option off. */
  const Default := Config("", [], {})

  const NoPatternError := "Error: No pattern provided"
  const NoFilePathsError := "Error: No file paths provided"

  /** The option an argument spells: `-i -n -v -r -f -c`, and `-h` or
      `--help` for help. Every other argument is a non-option. The two-
      character spellings are told apart by their second character. */
  function FlagOf(arg: string): Option<Flag>
  {
    if |arg| == 2 && arg[0] == '-' then ShortFlag(arg[1])
    else if arg == "--help" then Some(Help)
    else None
  }

  function ShortFlag(c: char): Option<Flag>
  {
    match c
    case 'i' => Some(CaseInsensitive)
    case 'n' => Some(LineNumbers)
    case 'v' => Some(Invert)
    case 'r' => Some(Recursive)
    case 'f' => Some(Filenames)
    case 'c' => Some(Colored)
    case 'h' => Some(Help)
    case _ => None
  }

  /** `FlagOf` is exactly the table of eight spellings. */
  lemma FlagSpellings(arg: string)
    ensures FlagOf("-i") == Some(CaseInsensitive) && FlagOf("-n") == Some(LineNumbers)
    ensures FlagOf("-v") == Some(Invert) && FlagOf("-r") == Some(Recursive)
    ensures FlagOf("-f") == Some(Filenames) && FlagOf("-c") == Some(Colored)
    ensures FlagOf("-h") == Some(Help) && FlagOf("--help") == Some(Help)
    ensures FlagOf(arg).Some? ==>
              arg == "-i" || arg == "-n" || arg == "-v" || arg == "-r" ||
              arg == "-f" || arg == "-c" || arg == "-h" || arg == "--help"
  {
    if |arg| == 2 && arg[0] == '-' && ShortFlag(arg[1]).Some? {
      assert arg == ['-', arg[1]];
    }
  }

  /** Some argument of `rest` spells option `f`. */
  ghost predicate Spelled(rest: seq<string>, f: Flag)
  {
    exists a :: a in rest && FlagOf(a) == Some(f)
  }

  /** The state of the classification loop: the configuration with its
      options set so far, and the non-options pushed so far. */
  datatype Classified = Classified(config: Config, nonOptions: seq<string>)

  /** One turn of the classification loop. */
  function ClassifyArg(c: Classified, arg: string): Classified
  {
    match FlagOf(arg)
    case Some(f) => c.(config := c.config.(flags := c.config.flags + {f}))
    case None => c.(nonOptions := c.nonOptions + [arg])
  }

  /** The classification of the arguments after the program name, as the
      loop leaves it after the last argument. */
  function Classify(rest: seq<string>): (r: Classified)
    ensures r.config.pattern == "" && r.config.filePaths == []
  {
    if rest == [] then Classified(Default, [])
    else ClassifyArg(Classify(rest[..|rest| - 1]), rest[|rest| - 1])
  }

  /** Each option is set exactly when some argument spells it, wherever it
      stands and however often. */
  lemma {:induction false} ClassifyFlag(rest: seq<string>, f: Flag)
    ensures f in Classify(rest).config.flags <==> Spelled(rest, f)
  {
    if rest != [] {
      var init := rest[..|rest| - 1];
      var last := rest[|rest| - 1];
      assert rest == init + [last];
      ClassifyFlag(init, f);
      if Spelled(rest, f) {
        var a :| a in rest && FlagOf(a) == Some(f);
        if a != last {
          assert a in init;
        }
      }
      if Spelled(init, f) {
        var a :| a in init && FlagOf(a) == Some(f);
        assert a in rest;
      }
    }
  }

  /** The non-options are exactly the arguments that spell no option. */
  lemma {:induction false} ClassifyNonOption(rest: seq<string>, a: string)
    ensures a in Classify(rest).nonOptions <==> a in rest && FlagOf(a).None?
  {
    if rest != [] {
      var init := rest[..|rest| - 1];
      var last := rest[|rest| - 1];
      assert rest == init + [last];
      ClassifyNonOption(init, a);
    }
  }

  /** Help is spelled `-h` or `--help`. */
  lemma HelpSpelling(rest: seq<string>)
    ensures Spelled(rest, Help) <==> "-h" in rest || "--help" in rest
  {
    FlagSpellings("-h");
    if Spelled(rest, Help) {
      var a :| a in rest && FlagOf(a) == Some(Help);
      FlagSpellings(a);
    }
  }

  /** Recursion is spelled `-r` only. */
  lemma RecursiveSpelling(rest: seq<string>)
    ensures Spelled(rest, Recursive) <==> "-r" in rest
  {
    FlagSpellings("-r");
    if Spelled(rest, Recursive) {
      var a :| a in rest && FlagOf(a) == Some(Recursive);
      FlagSpellings(a);
    }
  }

  /** Classification keeps the non-options in their original order. */
  lemma {:induction false} ClassifyAppend(a: seq<string>, b: seq<string>)
    ensures Classify(a + b).nonOptions == Classify(a).nonOptions + Classify(b).nonOptions
    decreases |b|
  {
    if b == [] {
      assert a + b == a;
    } else {
      var b' := b[..|b| - 1];
      var x := b[|b| - 1];
      assert (a + b)[..|a + b| - 1] == a + b';
      assert (a + b)[|a + b| - 1] == x;
      ClassifyAppend(a, b');
      if FlagOf(x).Some? {
        assert Classify(b).nonOptions == Classify(b').nonOptions;
      } else {
        assert Classify(b).nonOptions == Classify(b').nonOptions + [x];
      }
    }
  }

  /** A single argument is either a flag, contributing no non-option, or
      itself a non-option. */
  lemma ClassifyOne(x: string)
    ensures Classify([x]).nonOptions == if FlagOf(x).Some? then [] else [x]
  {
    assert [x][..0] == [];
  }

  /** Repeating a flag changes nothing further. */
  lemma RepeatedFlag(rest: seq<string>, f: string)
    requires FlagOf(f).Some? && f in rest
    ensures Classify(rest + [f]) == Classify(rest)
  {
    assert (rest + [f])[..|rest|] == rest;
    ClassifyFlag(rest, FlagOf(f).value);
    var c := Classify(rest).config;
    assert c.flags + {FlagOf(f).value} == c.flags;
  }

  /** The whole of `Config::new`, with the finder's result standing in for
      the call to `recursively_find_all_files`. */
  function Parse(args: seq<string>, fs: Finder.FileSystem): Result<Config>
  {
    var c := Classify(if |args| == 0 then [] else args[1..]);
    if Help in c.config.flags then Ok(c.config)
    else if |c.nonOptions| == 0 then Err(NoPatternError)
    else if |c.nonOptions| < 2 then Err(NoFilePathsError)
    else
      var config := c.config.(pattern := c.nonOptions[0], filePaths := c.nonOptions[1..]);
      if Recursive !in config.flags then Ok(config)
      else
        match Finder.FindAll(config.filePaths, fs)
        case Ok(found) => Ok(config.(filePaths := found))
        case Err(e) => Err(e)
  }

  /** `Config::new` as the source runs it: a loop that skips the program
      name, turns on the option each flag spells and pushes every
      other argument, then the checks in order. */
  method NewConfig(args: seq<string>, fs: Finder.FileSystem) returns (r: Result<Config>)
    ensures r == Parse(args, fs)
  {
    var config := Default;
    var nonOptions: seq<string> := [];
    for i := 0 to |args|
      invariant i == 0 ==> config == Default && nonOptions == []
      invariant i > 0 ==> Classified(config, nonOptions) == Classify(args[1..i])
    {
      if i == 0 {
        continue;
      }
      assert args[1..i + 1] == args[1..i] + [args[i]];
      match FlagOf(args[i]) {
        case Some(f) => config := config.(flags := config.flags + {f});
        case None => nonOptions := nonOptions + [args[i]];
      }
    }
    assert |args| > 0 ==> args[1..|args|] == args[1..];
    if Help in config.flags {
      return Ok(config);
    }
    if |nonOptions| == 0 {
      return Err(NoPatternError);
    }
    if |nonOptions| < 2 {
      return Err(NoFilePathsError);
    }
    config := config.(pattern := nonOptions[0]);
    assert config.filePaths == [];
    config := config.(filePaths := config.filePaths + nonOptions[1..]);
    assert config.filePaths == nonOptions[1..];
    if Recursive in config.flags {
      var found := Finder.RecursivelyFindAllFiles(config.filePaths, fs);
      match found {
        case Ok(paths) => config := config.(filePaths := paths);
        case Err(e) => return Err(e);
      }
    }
    return Ok(config);
  }

  /** The outcome of `Config::new` in terms of the raw arguments: help wins
      over everything; otherwise no non-option is "no pattern", one is "no
      file paths", and two or more give the pattern and the file paths, the
      latter replaced by the finder's result (or its error) only under `-r`.
      A configuration returned has on exactly the options the arguments spell. */
  lemma ParseOutcome(args: seq<string>, fs: Finder.FileSystem, f: Flag)
    ensures var rest := if |args| == 0 then [] else args[1..];
            var nonOptions := Classify(rest).nonOptions;
            var r := Parse(args, fs);
            ("-h" in rest || "--help" in rest ==>
               r.Ok? && Help in r.value.flags && r.value.pattern == "" && r.value.filePaths == []) &&
            (!("-h" in rest || "--help" in rest) && |nonOptions| == 0 ==> r == Err(NoPatternError)) &&
            (!("-h" in rest || "--help" in rest) && |nonOptions| == 1 ==> r == Err(NoFilePathsError)) &&
            (!("-h" in rest || "--help" in rest) && |nonOptions| >= 2 && "-r" !in rest ==>
               r.Ok? && r.value.pattern == nonOptions[0] && r.value.filePaths == nonOptions[1..]) &&
            (!("-h" in rest || "--help" in rest) && |nonOptions| >= 2 && "-r" in rest ==>
               match Finder.FindAll(nonOptions[1..], fs)
               case Ok(found) => r.Ok? && r.value.pattern == nonOptions[0] && r.value.filePaths == found
               case Err(e) => r == Err(e)) &&
            (r.Ok? ==> (f in r.value.flags <==> Spelled(rest, f)))
  {
    var rest := if |args| == 0 then [] else args[1..];
    HelpSpelling(rest);
    RecursiveSpelling(rest);
    ClassifyFlag(rest, Help);
    ClassifyFlag(rest, Recursive);
    ClassifyFlag(rest, f);
  }

  /** An argument that only looks like an option is still a non-option:
      `-x` becomes the pattern, so only the missing file paths are reported. */
  lemma UnknownDashIsNonOption(fs: Finder.FileSystem)
    ensures Parse(["grep", "-x"], fs) == Err(NoFilePathsError)
  {
    assert ["grep", "-x"][1..] == ["-x"];
    ClassifyOne("-x");
  }
}
