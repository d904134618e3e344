/** `search_file`: reads a file line by line, decides for each line whether
    it is emitted, and stops at the first line that cannot be read. */
module Search {
  import opened Common
  import opened Matcher
  import CliConfig
  import Output

  /** One result of reading a line: its text, or a read failure. */
  datatype LineRead = Line(text: string) | ReadError

  /** What opening the file yields: a failure, or the sequence of line
      reads the file would produce. */
  datatype FileInput = CannotOpen | Opened(lineReads: seq<LineRead>)

  /** The records printed, in order, and the function's result. */
  datatype Report = Report(printed: seq<seq<Piece>>, result: Result<()>)

  /** The literal pattern of the configuration (the source escapes every
      regular-expression metacharacter), case-insensitive under `-i`. */
  function LineMatcher(config: CliConfig.Config, fold: char -> char): (m: Matcher)
    ensures m.pattern == config.pattern
    ensures m.ignoreCase <==> CliConfig.CaseInsensitive in config.flags
  {
    Matcher(config.pattern, CliConfig.CaseInsensitive in config.flags, fold)
  }

  /** The escaped pattern matches literally: without `-i`, at index `i`
      exactly when the line's next `|pattern|` characters are the pattern;
      under `-i`, when they agree with it character by character after
      case folding. */
  lemma LiteralPattern(config: CliConfig.Config, fold: char -> char, line: string, i: int)
    ensures var m := LineMatcher(config, fold);
            var n := |config.pattern|;
            CliConfig.CaseInsensitive !in config.flags ==>
              (MatchesAt(line, m, i) <==> 0 <= i && i + n <= |line| && line[i..i + n] == config.pattern)
    ensures var m := LineMatcher(config, fold);
            var n := |config.pattern|;
            CliConfig.CaseInsensitive in config.flags ==>
              (MatchesAt(line, m, i) <==>
                 0 <= i && i + n <= |line| &&
                 forall k :: 0 <= k < n ==> fold(line[i + k]) == fold(config.pattern[k]))
  {
    var m := LineMatcher(config, fold);
    var n := |config.pattern|;
    if CliConfig.CaseInsensitive !in config.flags && 0 <= i && i + n <= |line| {
      if MatchesAt(line, m, i) {
        forall k | 0 <= k < n
          ensures line[i..i + n][k] == config.pattern[k]
        {
          assert SameChar(m, line[i + k], m.pattern[k]);
        }
      }
      if line[i..i + n] == config.pattern {
        forall k | 0 <= k < n
          ensures SameChar(m, line[i + k], m.pattern[k])
        {
          assert line[i..i + n][k] == line[i + k];
        }
      }
    }
  }

  /** The per-line decision: `pattern_in_line` then `should_print`. */
  function Emits(config: CliConfig.Config, fold: char -> char, text: string): (r: bool)
    ensures r <==> (Contains(text, LineMatcher(config, fold)) != (CliConfig.Invert in config.flags))
  {
    ShouldPrint(CliConfig.Invert in config.flags,
                PatternInLine(LineMatcher(config, fold), CliConfig.Colored in config.flags, text).found)
  }

  /** The record printed for an emitted line with 1-based number `lineNumber`. */
  function Record(config: CliConfig.Config, fold: char -> char, path: string,
                  lineNumber: nat, text: string): seq<Piece>
  {
    Output.FormatRecord(CliConfig.Filenames in config.flags, CliConfig.LineNumbers in config.flags,
                        path, lineNumber,
                        PatternInLine(LineMatcher(config, fold), CliConfig.Colored in config.flags, text).display)
  }

  function ReadLineError(lineNumber: nat, path: string): string
  {
    "Could not read line " + Output.NatToString(lineNumber) + " from " + path
  }

  function OpenError(path: string): string
  {
    "Could not open file: " + path
  }

  /** The remaining line reads, `before` lines having been read already. */
  function Scan(config: CliConfig.Config, fold: char -> char, path: string,
                lineReads: seq<LineRead>, before: nat): Report
    decreases |lineReads|
  {
    if lineReads == [] then Report([], Ok(()))
    else match lineReads[0]
      case ReadError => Report([], Err(ReadLineError(before + 1, path)))
      case Line(text) =>
        var rest := Scan(config, fold, path, lineReads[1..], before + 1);
        if Emits(config, fold, text)
        then Report([Record(config, fold, path, before + 1, text)] + rest.printed, rest.result)
        else rest
  }

  /** The whole of `search_file` as a function of what the file yields. */
  function SearchFileSpec(config: CliConfig.Config, fold: char -> char, path: string,
                          input: FileInput): Report
  {
    match input
    case CannotOpen => Report([], Err(OpenError(path)))
    case Opened(lineReads) => Scan(config, fold, path, lineReads, 0)
  }

  /** `search_file` as the source runs it: one pass over the line reads,
      printing each emitted record and returning at the first failure. */
  method SearchFile(config: CliConfig.Config, fold: char -> char, path: string, input: FileInput)
    returns (printed: seq<seq<Piece>>, result: Result<()>)
    ensures Report(printed, result) == SearchFileSpec(config, fold, path, input)
  {
    printed := [];
    if input.CannotOpen? {
      return [], Err(OpenError(path));
    }
    var lineReads := input.lineReads;
    var m := LineMatcher(config, fold);
    var i := 0;
    while i < |lineReads|
      invariant 0 <= i <= |lineReads|
      invariant Scan(config, fold, path, lineReads, 0) ==
                Scan(config, fold, path, lineReads[i..], i).(printed := printed + Scan(config, fold, path, lineReads[i..], i).printed)
    {
      assert lineReads[i..][1..] == lineReads[i + 1..];
      match lineReads[i] {
        case ReadError =>
          return printed, Err(ReadLineError(i + 1, path));
        case Line(line) =>
          var lm := PatternInLine(m, CliConfig.Colored in config.flags, line);
          if ShouldPrint(CliConfig.Invert in config.flags, lm.found) {
            var record := Output.PrintMatch(config, path, i + 1, lm.display);
            printed := printed + [record];
          }
      }
      i := i + 1;
    }
    result := Ok(());
  }

  /** All lines are read without failure: the first `k` reads are lines. */
  ghost predicate AllLines(lineReads: seq<LineRead>, k: int)
  {
    forall j :: 0 <= j < k && j < |lineReads| ==> lineReads[j].Line?
  }

  /** The search succeeds exactly when every line can be read. */
  lemma {:induction false} ScanOkIff(config: CliConfig.Config, fold: char -> char, path: string,
                                     lineReads: seq<LineRead>, before: nat)
    ensures Scan(config, fold, path, lineReads, before).result.Ok? <==> AllLines(lineReads, |lineReads|)
    decreases |lineReads|
  {
    if lineReads != [] {
      ScanOkIff(config, fold, path, lineReads[1..], before + 1);
      if lineReads[0].Line? && !AllLines(lineReads, |lineReads|) {
        var j :| 0 <= j < |lineReads| && lineReads[j].ReadError?;
        assert lineReads[1..][j - 1] == lineReads[j];
      }
    }
  }

  /** The records a readable line contributes: its own, when emitted. */
  function LineRecords(config: CliConfig.Config, fold: char -> char, path: string,
                       lineNumber: nat, text: string): seq<seq<Piece>>
  {
    if Emits(config, fold, text) then [Record(config, fold, path, lineNumber, text)] else []
  }

  lemma ScanLine(config: CliConfig.Config, fold: char -> char, path: string,
                 lineReads: seq<LineRead>, before: nat)
    requires lineReads != [] && lineReads[0].Line?
    ensures var rest := Scan(config, fold, path, lineReads[1..], before + 1);
            Scan(config, fold, path, lineReads, before) ==
              Report(LineRecords(config, fold, path, before + 1, lineReads[0].text) + rest.printed,
                     rest.result)
  {
    var rest := Scan(config, fold, path, lineReads[1..], before + 1);
    assert [] + rest.printed == rest.printed;
  }

  /** Splitting the reads: a search over `a + b` is the search over `a`,
      followed, when `a` read without failure, by the search over `b` with
      the line numbers continuing. */
  lemma {:induction false} ScanAppend(config: CliConfig.Config, fold: char -> char, path: string,
                                      a: seq<LineRead>, b: seq<LineRead>, before: nat)
    ensures var ra := Scan(config, fold, path, a, before);
            var rb := Scan(config, fold, path, b, before + |a|);
            Scan(config, fold, path, a + b, before) ==
              if ra.result.Ok? then Report(ra.printed + rb.printed, rb.result) else ra
    decreases |a|
  {
    if a == [] {
      assert a + b == b;
    } else {
      assert (a + b)[0] == a[0];
      assert (a + b)[1..] == a[1..] + b;
      ScanAppend(config, fold, path, a[1..], b, before + 1);
      if a[0].Line? {
        ScanLine(config, fold, path, a, before);
        ScanLine(config, fold, path, a + b, before);
        var h := LineRecords(config, fold, path, before + 1, a[0].text);
        var ra' := Scan(config, fold, path, a[1..], before + 1);
        var rb := Scan(config, fold, path, b, before + |a|);
        assert h + (ra'.printed + rb.printed) == (h + ra'.printed) + rb.printed;
      }
    }
  }

  /** The first read failure, at line `k + 1`, is the error reported, and
      what was printed is what the lines before it printed. */
  lemma ScanFirstError(config: CliConfig.Config, fold: char -> char, path: string,
                       lineReads: seq<LineRead>, k: nat)
    requires k < |lineReads| && lineReads[k].ReadError? && AllLines(lineReads, k)
    ensures Scan(config, fold, path, lineReads, 0) ==
            Report(Scan(config, fold, path, lineReads[..k], 0).printed, Err(ReadLineError(k + 1, path)))
  {
    assert lineReads == lineReads[..k] + lineReads[k..];
    ScanOkIff(config, fold, path, lineReads[..k], 0);
    ScanAppend(config, fold, path, lineReads[..k], lineReads[k..], 0);
  }

  /** Line `j` of the reads (0-based) precedes every read failure, is
      emitted, and has `rec` as its record. */
  ghost predicate EmittedAt(config: CliConfig.Config, fold: char -> char, path: string,
                            lineReads: seq<LineRead>, before: nat, j: int, rec: seq<Piece>)
  {
    0 <= j < |lineReads| && AllLines(lineReads, j + 1) && lineReads[j].Line? &&
    Emits(config, fold, lineReads[j].text) &&
    rec == Record(config, fold, path, before + j + 1, lineReads[j].text)
  }

  /** Line `j + 1` of the reads is line `j` of their tail, one line later. */
  lemma EmittedAtShift(config: CliConfig.Config, fold: char -> char, path: string,
                       lineReads: seq<LineRead>, before: nat, j: nat, rec: seq<Piece>)
    requires lineReads != []
    ensures EmittedAt(config, fold, path, lineReads, before, j + 1, rec) <==>
            lineReads[0].Line? && EmittedAt(config, fold, path, lineReads[1..], before + 1, j, rec)
  {
    var tail := lineReads[1..];
    if j + 1 < |lineReads| {
      assert tail[j] == lineReads[j + 1];
      assert before + (j + 1) + 1 == (before + 1) + j + 1;
      if lineReads[0].Line? && AllLines(tail, j + 1) {
        forall i | 0 <= i < j + 2 && i < |lineReads|
          ensures lineReads[i].Line?
        {
          if i > 0 {
            assert lineReads[i] == tail[i - 1];
          }
        }
      }
      if AllLines(lineReads, j + 2) {
        forall i | 0 <= i < j + 1 && i < |tail|
          ensures tail[i].Line?
        {
          assert tail[i] == lineReads[i + 1];
        }
      }
    }
  }

  /** A record is printed exactly when it is the record of some emitted
      line that precedes every read failure. */
  lemma {:induction false} ScanPrinted(config: CliConfig.Config, fold: char -> char, path: string,
                                       lineReads: seq<LineRead>, before: nat, rec: seq<Piece>)
    ensures rec in Scan(config, fold, path, lineReads, before).printed <==>
            exists j :: EmittedAt(config, fold, path, lineReads, before, j, rec)
    decreases |lineReads|
  {
    if lineReads != [] {
      var tail := lineReads[1..];
      ScanPrinted(config, fold, path, tail, before + 1, rec);
      var printed := Scan(config, fold, path, lineReads, before).printed;
      if rec in printed {
        if EmittedAt(config, fold, path, lineReads, before, 0, rec) {
        } else {
          var j :| EmittedAt(config, fold, path, tail, before + 1, j, rec);
          EmittedAtShift(config, fold, path, lineReads, before, j, rec);
        }
      }
      if exists j :: EmittedAt(config, fold, path, lineReads, before, j, rec) {
        var j :| EmittedAt(config, fold, path, lineReads, before, j, rec);
        if j > 0 {
          EmittedAtShift(config, fold, path, lineReads, before, j - 1, rec);
        }
      }
    }
  }

  /** The configuration with `-v` toggled. */
  function Inverted(config: CliConfig.Config): CliConfig.Config
  {
    if CliConfig.Invert in config.flags
    then config.(flags := config.flags - {CliConfig.Invert})
    else config.(flags := config.flags + {CliConfig.Invert})
  }

  /** On a file read without failure, a search and the same search with
      `-v` toggled print, between them, one record per line. */
  lemma {:induction false} InvertPartition(config: CliConfig.Config, fold: char -> char, path: string,
                                           lineReads: seq<LineRead>, before: nat)
    requires AllLines(lineReads, |lineReads|)
    ensures |Scan(config, fold, path, lineReads, before).printed| +
            |Scan(Inverted(config), fold, path, lineReads, before).printed| == |lineReads|
    decreases |lineReads|
  {
    if lineReads != [] {
      assert lineReads[0].Line?;
      assert AllLines(lineReads[1..], |lineReads[1..]|) by {
        forall i | 0 <= i < |lineReads[1..]|
          ensures lineReads[1..][i].Line?
        {
          assert lineReads[1..][i] == lineReads[i + 1];
        }
      }
      InvertPartition(config, fold, path, lineReads[1..], before + 1);
      assert LineMatcher(Inverted(config), fold) == LineMatcher(config, fold);
      assert Emits(Inverted(config), fold, lineReads[0].text) != Emits(config, fold, lineReads[0].text);
    }
  }

  /** A file whose first line matches and whose second cannot be read:
      the first line is printed as it is, then line 2 is reported. */
  lemma MatchThenReadError(fold: char -> char)
    ensures var config := CliConfig.Config("cat", ["f"], {});
            SearchFileSpec(config, fold, "f", Opened([Line("a cat"), ReadError])) ==
              Report([Text("a cat")], Err(ReadLineError(2, "f")))
  {
    var config := CliConfig.Config("cat", ["f"], {});
    var lineReads := [Line("a cat"), ReadError];
    assert MatchesAt("a cat", LineMatcher(config, fold), 2);
    assert Emits(config, fold, "a cat");
    assert Record(config, fold, "f", 1, "a cat") == Text("a cat");
    assert LineRecords(config, fold, "f", 1, "a cat") == [Text("a cat")];
    assert lineReads[1..] == [ReadError];
    ScanLine(config, fold, "f", lineReads, 0);
  }

  /** The read-failure message for line 2 of file `f`, spelled out. */
  lemma ReadLineErrorText()
    ensures ReadLineError(2, "f") == "Could not read line 2 from f"
  {
    assert Output.NatToString(2) == "2";
  }

  /** Under `-i` the pattern "CAT" matches the line "a cat". */
  lemma IgnoreCaseScenario()
    ensures Emits(CliConfig.Config("CAT", ["f"], {CliConfig.CaseInsensitive}), AsciiFold, "a cat")
  {
    var config := CliConfig.Config("CAT", ["f"], {CliConfig.CaseInsensitive});
    var m := LineMatcher(config, AsciiFold);
    assert AsciiFold('C') == 'c' && AsciiFold('A') == 'a' && AsciiFold('T') == 't';
    assert MatchesAt("a cat", m, 2);
  }

  /** Under `-v` a line without the pattern is emitted, unchanged even
      when colouring is on. */
  lemma InvertScenario(fold: char -> char)
    ensures var config := CliConfig.Config("dog", ["f"], {CliConfig.Invert, CliConfig.Colored});
            Emits(config, fold, "a cat") && Record(config, fold, "f", 1, "a cat") == Text("a cat")
  {
    var config := CliConfig.Config("dog", ["f"], {CliConfig.Invert, CliConfig.Colored});
    var m := LineMatcher(config, fold);
    forall i
      ensures !MatchesAt("a cat", m, i)
    {
      if 0 <= i <= 2 {
        assert !SameChar(m, "a cat"[i + 0], m.pattern[0]);
      }
    }
  }
}
