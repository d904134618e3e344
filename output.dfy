/** `print_match`: the record printed for an emitted line, the optional
    file path and line number joined to the line by ": ". */
module Output {
  import opened Matcher
  import CliConfig

  predicate IsDigit(c: char)
  {
    '0' <= c <= '9'
  }

  function Digit(d: nat): (c: char)
    requires d < 10
    ensures IsDigit(c) && c as int - '0' as int == d
  {
    ('0' as int + d) as char
  }

  /** `usize::to_string`: the decimal digits of `n`, most significant
      first, with no leading zero. */
  function NatToString(n: nat): (s: string)
    ensures |s| >= 1
    ensures forall k :: 0 <= k < |s| ==> IsDigit(s[k])
    ensures |s| > 1 ==> s[0] != '0'
    ensures n < 10 <==> |s| == 1
    decreases n
  {
    if n < 10 then [Digit(n)] else NatToString(n / 10) + [Digit(n % 10)]
  }

  /** The number a string of decimal digits denotes. */
  function DecimalValue(s: string): nat
    requires forall k :: 0 <= k < |s| ==> IsDigit(s[k])
  {
    if s == [] then 0
    else
      assert IsDigit(s[|s| - 1]);
      DecimalValue(s[..|s| - 1]) * 10 + (s[|s| - 1] as int - '0' as int)
  }

  /** Reading the printed line number back gives the line number. */
  lemma {:induction false} DecimalRoundTrip(n: nat)
    ensures DecimalValue(NatToString(n)) == n
    decreases n
  {
    if n >= 10 {
      var s := NatToString(n);
      assert s[..|s| - 1] == NatToString(n / 10);
      DecimalRoundTrip(n / 10);
    }
  }

  /** Different line numbers are printed differently. */
  lemma NatToStringInjective(a: nat, b: nat)
    requires NatToString(a) == NatToString(b)
    ensures a == b
  {
    DecimalRoundTrip(a);
    DecimalRoundTrip(b);
  }

  /** `Vec::join`: the parts with the separator between neighbours. */
  function Join(parts: seq<seq<Piece>>, sep: seq<Piece>): seq<Piece>
  {
    if parts == [] then []
    else if |parts| == 1 then parts[0]
    else Join(parts[..|parts| - 1], sep) + sep + parts[|parts| - 1]
  }

  /** Joining from the front: the first part, a separator, and the rest
      joined. */
  lemma {:induction false} JoinFront(p: seq<Piece>, parts: seq<seq<Piece>>, sep: seq<Piece>)
    requires parts != []
    ensures Join([p] + parts, sep) == p + sep + Join(parts, sep)
    decreases |parts|
  {
    var all := [p] + parts;
    if |parts| == 1 {
      assert all[..1] == [p];
    } else {
      var init := parts[..|parts| - 1];
      assert all[..|all| - 1] == [p] + init;
      JoinFront(p, init, sep);
    }
  }

  const Separator: string := ": "

  /** The printed record, built from the front: the file path and a
      separator under `-f`, the line number and a separator under `-n`,
      then the displayed line. */
  function FormatRecord(withName: bool, withNumber: bool, path: string, lineNumber: nat,
                        line: seq<Piece>): seq<Piece>
  {
    (if withName then Text(path) + Text(Separator) else []) +
    (if withNumber then Text(NatToString(lineNumber)) + Text(Separator) else []) +
    line
  }

  /** Without colour the record reads, as text, as the path, the number and
      the line with ": " after each present prefix; the line itself is
      always its end. */
  lemma FormatRecordText(withName: bool, withNumber: bool, path: string, lineNumber: nat,
                         line: string)
    ensures FormatRecord(withName, withNumber, path, lineNumber, Text(line)) ==
            Text((if withName then path + Separator else []) +
                 (if withNumber then NatToString(lineNumber) + Separator else []) + line)
  {
    var name := if withName then path + Separator else [];
    var number := if withNumber then NatToString(lineNumber) + Separator else [];
    TextAppend(path, Separator);
    TextAppend(NatToString(lineNumber), Separator);
    TextAppend(name, number);
    TextAppend(name + number, line);
  }

  lemma TextAppend(a: string, b: string)
    ensures Text(a + b) == Text(a) + Text(b)
  {
  }

  /** `print_match`: pushes the optional path, the optional line number and
      the line onto a list and joins it with ": ". The printed record is the
      one `FormatRecord` describes. */
  method PrintMatch(config: CliConfig.Config, path: string, lineNumber: nat, line: seq<Piece>)
    returns (record: seq<Piece>)
    ensures record == FormatRecord(CliConfig.Filenames in config.flags,
                                   CliConfig.LineNumbers in config.flags, path, lineNumber, line)
    ensures CliConfig.Filenames !in config.flags && CliConfig.LineNumbers !in config.flags ==>
              record == line
  {
    var outputList: seq<seq<Piece>> := [];
    if CliConfig.Filenames in config.flags {
      outputList := outputList + [Text(path)];
    }
    if CliConfig.LineNumbers in config.flags {
      outputList := outputList + [Text(NatToString(lineNumber))];
    }
    outputList := outputList + [line];
    var sep := Text(Separator);
    record := Join(outputList, sep);
    var name := Text(path);
    var number := Text(NatToString(lineNumber));
    if |outputList| == 3 {
      assert outputList == [name] + ([number] + [line]);
      JoinFront(name, [number] + [line], sep);
      JoinFront(number, [line], sep);
      assert record == name + sep + (number + sep + line);
    } else if |outputList| == 2 {
      assert outputList == [outputList[0]] + [line];
      JoinFront(outputList[0], [line], sep);
      assert record == outputList[0] + sep + line;
    } else {
      assert outputList == [line];
    }
  }
}
